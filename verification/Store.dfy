/**
 * The engine as a state machine: one writer that logs, applies and flushes, and readers that look into the memory
 * table and later take a snapshot of the sorted table. Reads are linearizable, and a restart that replays too much
 * is harmless.
 */
module Store {
  import opened Bytes
  import opened Options
  import opened WalRecord
  import opened MemTable

  /** The writer's flush holds the table lock from `Flushing` until the table is cleared; `Added` is between its two steps. */
  datatype Phase = Idle | Flushing | Added

  /** `zero` are the flushed tables, oldest first; `deep` stands for the partitioned levels, which no step here changes. */
  datatype State = State(table: Table, zero: seq<Table>, deep: Table, phase: Phase, nextLsn: nat)

  datatype Step =
    | Write(key: Key, value: Option<seq<byte>>, advance: nat)
    | StartFlush
    | AddSegment
    | Clear

  predicate Enabled(s: State, step: Step) {
    match step
    case Write(_, _, advance) => s.phase.Idle? && advance > 0
    case StartFlush => s.phase.Idle?
    case AddSegment => s.phase.Flushing?
    case Clear => s.phase.Added?
  }

  /** Puts and deletes carry the log's next sequence number, which every append moves on. */
  function Apply(s: State, step: Step): State
    requires Enabled(s, step)
  {
    match step
    case Write(key, value, advance) =>
      s.(table := s.table[key := MemTableValue(value, s.nextLsn)], nextLsn := s.nextLsn + advance)
    case StartFlush => s.(phase := Flushing)
    case AddSegment => s.(zero := s.zero + [s.table], phase := Added)
    case Clear => s.(table := map[], phase := Idle)
  }

  // ---------- lookups ----------

  /** The newest version over the flushed tables; of two equally new ones the later table's. */
  function ZeroLookup(zero: seq<Table>, key: Key): Option<MemTableValue> {
    if zero == [] then None
    else
      var curr, entry := ZeroLookup(zero[..|zero| - 1], key), Lookup(zero[|zero| - 1], key);
      if entry.None? then curr
      else if curr.None? then entry
      else if curr.value.lsn > entry.value.lsn then curr else entry
  }

  function SstLookup(s: State, key: Key): Option<MemTableValue> {
    var r := ZeroLookup(s.zero, key);
    if r.Some? then r else Lookup(s.deep, key)
  }

  /** Tombstones read as absent. */
  function Flatten(r: Option<MemTableValue>): Option<seq<byte>> {
    if r.None? then None else r.value.value
  }

  /** The plain map the engine stands for. */
  function Value(s: State, key: Key): Option<seq<byte>> {
    if key in s.table then s.table[key].value else Flatten(SstLookup(s, key))
  }

  // ---------- invariant ----------

  /** Where a flushed table and the memory table share a key, the latter is newer or they agree. */
  ghost predicate NotNewer(old': Table, table: Table) {
    forall k :: k in old' && k in table ==> old'[k].lsn < table[k].lsn || old'[k] == table[k]
  }

  ghost predicate Below(table: Table, lsn: nat) {
    forall k :: k in table ==> table[k].lsn < lsn
  }

  /** The flushed tables were flushed in order. */
  ghost predicate InOrder(zero: seq<Table>) {
    forall i, j :: 0 <= i < j < |zero| ==> NotNewer(zero[i], zero[j])
  }

  ghost predicate Inv(s: State) {
    && Below(s.table, s.nextLsn)
    && (forall i :: 0 <= i < |s.zero| ==> Below(s.zero[i], s.nextLsn) && NotNewer(s.zero[i], s.table))
    && InOrder(s.zero)
    && (s.phase.Added? ==> forall k :: k in s.table ==> ZeroLookup(s.zero, k) == Some(s.table[k]))
  }

  /** The newest version is one of the flushed ones, and the table being flushed is not older. */
  lemma {:induction false} ZeroIsNotNewer(zero: seq<Table>, table: Table, key: Key)
    requires forall i :: 0 <= i < |zero| ==> NotNewer(zero[i], table)
    requires key in table
    ensures
      var r := ZeroLookup(zero, key);
      r.Some? ==> r.value.lsn < table[key].lsn || r.value == table[key]
  {
    if zero != [] {
      ZeroIsNotNewer(zero[..|zero| - 1], table, key);
      assert NotNewer(zero[|zero| - 1], table);
    }
  }

  lemma {:induction false} FlushedIsFound(s: State, key: Key)
    requires Inv(s) && key in s.table
    ensures ZeroLookup(s.zero + [s.table], key) == Some(s.table[key])
  {
    ZeroIsNotNewer(s.zero, s.table, key);
    assert (s.zero + [s.table])[..|s.zero|] == s.zero;
  }

  lemma {:induction false} UnflushedIsUnchanged(s: State, key: Key)
    requires key !in s.table
    ensures ZeroLookup(s.zero + [s.table], key) == ZeroLookup(s.zero, key)
  {
    assert (s.zero + [s.table])[..|s.zero|] == s.zero;
  }

  lemma {:induction false} StaysInOrder(s: State)
    requires InOrder(s.zero) && forall i :: 0 <= i < |s.zero| ==> NotNewer(s.zero[i], s.table)
    ensures InOrder(s.zero + [s.table])
  {
    hide NotNewer;
  }

  /** Every step keeps the invariant. */
  lemma {:induction false} StepKeepsInv(s: State, step: Step)
    requires Inv(s) && Enabled(s, step)
    ensures Inv(Apply(s, step))
  {
    hide ZeroLookup;
    if step.AddSegment? {
      forall k | k in s.table ensures ZeroLookup(s.zero + [s.table], k) == Some(s.table[k]) {
        FlushedIsFound(s, k);
      }
    }
    StaysInOrder(s);
  }

  /** A write changes the map at its key only; the steps of a flush do not change it at all. */
  lemma {:induction false} StepRefinesMap(s: State, step: Step, key: Key)
    requires Inv(s) && Enabled(s, step)
    ensures Value(Apply(s, step), key) == if step.Write? && step.key == key then step.value else Value(s, key)
  {
    hide ZeroLookup;
    if step.AddSegment? && key !in s.table {
      UnflushedIsUnchanged(s, key);
    }
  }

  /** Only adding a segment changes what the sorted table answers, and then to what the map said before the step. */
  lemma {:induction false} SstAfterStep(s: State, step: Step, key: Key)
    requires Inv(s) && Enabled(s, step)
    ensures
      var after := Flatten(SstLookup(Apply(s, step), key));
      after == if step.AddSegment? && key in s.table then Value(s, key) else Flatten(SstLookup(s, key))
  {
    hide ZeroLookup;
    if step.AddSegment? {
      if key in s.table {
        FlushedIsFound(s, key);
      } else {
        UnflushedIsUnchanged(s, key);
      }
    }
  }

  // ---------- runs and readers ----------

  ghost predicate Run(states: seq<State>, steps: seq<Step>) {
    && |states| == |steps| + 1 && Inv(states[0])
    && forall i :: 0 <= i < |steps| ==> Enabled(states[i], steps[i]) && states[i + 1] == Apply(states[i], steps[i])
  }

  lemma {:induction false} RunKeepsInv(states: seq<State>, steps: seq<Step>, n: nat)
    requires Run(states, steps) && n < |states|
    ensures Inv(states[n])
  {
    if n > 0 {
      RunKeepsInv(states, steps, n - 1);
      StepKeepsInv(states[n - 1], steps[n - 1]);
    }
  }

  /** What a read returns whose first stage sees `first` and whose second stage, if needed, sees `second`. */
  function ReadResult(first: State, second: State, key: Key): Option<seq<byte>> {
    if key in first.table then first.table[key].value else Flatten(SstLookup(second, key))
  }

  /**
   * Linearizable reads. The first stage is possible whenever the writer does not hold the table lock. Whatever the
   * writer does between the two stages, writes of the same key and whole flushes included, the result is the map's
   * value at some state between the two.
   */
  lemma {:induction false} ReadsAreLinearizable(states: seq<State>, steps: seq<Step>, i: nat, j: nat,
                                                key: Key) returns (m: nat)
    requires Run(states, steps) && i <= j < |states| && states[i].phase.Idle?
    ensures i <= m <= j && ReadResult(states[i], states[j], key) == Value(states[m], key)
    ensures
      (if key in states[i].table then states[i].table[key].value else Flatten(SstLookup(states[j], key))) ==
      Value(states[m], key)
  {
    hide SstLookup, Inv;
    if key in states[i].table || i == j {
      m := i;
    } else {
      m := ReadsAreLinearizable(states, steps, i, j - 1, key);
      RunKeepsInv(states, steps, j - 1);
      SstAfterStep(states[j - 1], steps[j - 1], key);
      if steps[j - 1].AddSegment? && key in states[j - 1].table {
        m := j - 1;
      }
    }
  }

  /** The writes of a run, in order. */
  function Writes(steps: seq<Step>, key: Key, initial: Option<seq<byte>>): Option<seq<byte>> {
    if steps == [] then initial
    else
      var last := steps[|steps| - 1];
      if last.Write? && last.key == key then last.value else Writes(steps[..|steps| - 1], key, initial)
  }

  /** Over a whole run the map holds the last write of each key, no matter when flushes happened. */
  lemma {:induction false} RunRefinesMap(states: seq<State>, steps: seq<Step>, key: Key)
    requires Run(states, steps)
    ensures Value(states[|steps|], key) == Writes(steps, key, Value(states[0], key))
    decreases |steps|
  {
    hide Inv, Value;
    if steps != [] {
      var n := |steps| - 1;
      RunPrefix(states, steps);
      RunRefinesMap(states[..n + 1], steps[..n], key);
      RunKeepsInv(states, steps, n);
      StepRefinesMap(states[n], steps[n], key);
    }
  }

  lemma {:induction false} RunPrefix(states: seq<State>, steps: seq<Step>)
    requires Run(states, steps) && steps != []
    ensures Run(states[..|steps|], steps[..|steps| - 1])
  {
    hide Inv;
  }

  // ---------- restart ----------

  /** Numbers of entries after which flushes happened, behind `base` entries that have moved to deeper levels. */
  predicate CutsOf(es: seq<WalEntry>, base: nat, cuts: seq<nat>) {
    && base <= |es| && (forall i :: 0 <= i < |cuts| ==> base <= cuts[i] <= |es|)
    && (forall i, j :: 0 <= i < j < |cuts| ==> cuts[i] <= cuts[j])
  }

  /** The tables that those flushes leave behind. */
  function FlushedTables(es: seq<WalEntry>, base: nat, cuts: seq<nat>): seq<Table>
    requires CutsOf(es, base, cuts)
  {
    if cuts == [] then []
    else
      var n := |cuts| - 1;
      var from := if n == 0 then base else cuts[n - 1];
      FlushedTables(es, base, cuts[..n]) + [ApplyAll(map[], es[from..cuts[n]])]
  }

  /** How many entries have been flushed. */
  function FlushedUpTo(base: nat, cuts: seq<nat>): nat {
    if cuts == [] then base else cuts[|cuts| - 1]
  }

  ghost predicate Increasing(es: seq<WalEntry>) {
    forall i, j :: 0 <= i < j < |es| ==> es[i].lsn < es[j].lsn
  }

  /** The last write of a key, split at any point of the history. */
  lemma {:induction false} LastWriteSplit(a: seq<WalEntry>, b: seq<WalEntry>, key: Key)
    ensures LastWrite(a + b, key) == if LastWrite(b, key).Some? then LastWrite(b, key) else LastWrite(a, key)
    decreases |b|
  {
    if b == [] {
      assert a + b == a;
    } else {
      var n := |b| - 1;
      LastWriteSplit(a, b[..n], key);
      assert (a + b)[..|a + b| - 1] == a + b[..n] && (a + b)[|a + b| - 1] == b[n];
    }
  }

  lemma {:induction false} LastWriteIsEntry(es: seq<WalEntry>, key: Key) returns (i: nat)
    requires LastWrite(es, key).Some?
    ensures i < |es| && LastWrite(es, key) == Some(ValueOf(es[i]))
  {
    i := |es| - 1;
    if es[i].key != key {
      i := LastWriteIsEntry(es[..i], key);
    }
  }

  /** However the history was cut into flushes, the newest flushed version is the last write up to the last cut. */
  lemma {:induction false} FlushedIsLastWrite(es: seq<WalEntry>, base: nat, cuts: seq<nat>, key: Key)
    requires Increasing(es) && CutsOf(es, base, cuts)
    ensures base <= FlushedUpTo(base, cuts) <= |es|
    ensures ZeroLookup(FlushedTables(es, base, cuts), key) == LastWrite(es[base..FlushedUpTo(base, cuts)], key)
    decreases |cuts|
  {
    hide ApplyAll, LastWrite, FlushedTables, ZeroLookup, Increasing;
    NoLastWrite(key);
    if cuts == [] {
      assert es[base..base] == [];
      NothingFlushed(es, base, key);
    } else {
      var n := |cuts| - 1;
      var from := FlushedUpTo(base, cuts[..n]);
      FlushedIsLastWrite(es, base, cuts[..n], key);
      LastFlush(es, base, cuts, key);
      ReplayIsLastWrite(es[from..cuts[n]], key);
      LaterWriteIsNewer(es, base, from, cuts[n], key);
    }
  }

  lemma {:induction false} NothingFlushed(es: seq<WalEntry>, base: nat, key: Key)
    requires base <= |es|
    ensures ZeroLookup(FlushedTables(es, base, []), key) == None
  {
  }

  /** The lookup over all flushed tables, by the last one and those before it. */
  lemma {:induction false} LastFlush(es: seq<WalEntry>, base: nat, cuts: seq<nat>, key: Key)
    requires CutsOf(es, base, cuts) && cuts != []
    ensures
      var n := |cuts| - 1;
      var from := FlushedUpTo(base, cuts[..n]);
      && from <= cuts[n]
      && var curr, entry := ZeroLookup(FlushedTables(es, base, cuts[..n]), key), Lookup(ApplyAll(map[], es[from..cuts[n]]), key);
         ZeroLookup(FlushedTables(es, base, cuts), key) ==
         if entry.None? then curr else if curr.None? then entry else if curr.value.lsn > entry.value.lsn then curr else entry
  {
    hide ApplyAll;
    var n := |cuts| - 1;
    var front := FlushedTables(es, base, cuts[..n]);
    var last := ApplyAll(map[], es[FlushedUpTo(base, cuts[..n])..cuts[n]]);
    assert FlushedTables(es, base, cuts) == front + [last];
    assert (front + [last])[..|front|] == front;
  }

  lemma {:induction false} NoLastWrite(key: Key)
    ensures LastWrite([], key) == None
  {
  }

  lemma {:induction false} LaterWriteIsNewer(es: seq<WalEntry>, base: nat, from: nat, to: nat, key: Key)
    requires Increasing(es) && base <= from <= to <= |es|
    ensures
      var a, b := LastWrite(es[base..from], key), LastWrite(es[from..to], key);
      && LastWrite(es[base..to], key) == (if b.Some? then b else a)
      && (a.Some? && b.Some? ==> a.value.lsn < b.value.lsn)
  {
    hide LastWrite;
    var a, b := es[base..from], es[from..to];
    assert es[base..to] == a + b;
    LastWriteSplit(a, b, key);
    if LastWrite(a, key).Some? && LastWrite(b, key).Some? {
      var i := LastWriteIsEntry(a, key);
      var j := LastWriteIsEntry(b, key);
      assert es[base + i] == a[i] && es[from + j] == b[j];
    }
  }

  /**
   * Replaying from any entry that has already been flushed answers every key as replaying from the first unflushed one,
   * and both answer the last write of the whole history. All that counts is that the sorted table, in whatever levels,
   * answers with the last of the first `n` writes.
   */
  lemma {:induction false} ReplayOverlapIsHarmless(es: seq<WalEntry>, n: nat, m: nat, zero: seq<Table>, deep: Table,
                                                   key: Key, nextLsn: nat)
    requires m <= n <= |es|
    requires SstLookup(State(map[], zero, deep, Idle, nextLsn), key) == LastWrite(es[..n], key)
    ensures
      var before := State(ApplyAll(map[], es[n..]), zero, deep, Idle, nextLsn);
      var after := State(ApplyAll(map[], es[m..]), zero, deep, Idle, nextLsn);
      Value(after, key) == Value(before, key) == Flatten(LastWrite(es, key))
  {
    hide ApplyAll, ZeroLookup, LastWrite;
    AnswerFrom(es, n, n, key);
    AnswerFrom(es, m, n, key);
  }

  /** What replaying from `m` on top of everything up to `n` answers. */
  lemma {:induction false} AnswerFrom(es: seq<WalEntry>, m: nat, n: nat, key: Key)
    requires m <= n <= |es|
    ensures
      var replayed := Lookup(ApplyAll(map[], es[m..]), key);
      LastWrite(es, key) == if replayed.Some? then replayed else LastWrite(es[..n], key)
  {
    hide ApplyAll, LastWrite;
    ReplayIsLastWrite(es[m..], key);
    assert es == es[..m] + es[m..];
    LastWriteSplit(es[..m], es[m..], key);
    assert es[m..] == es[m..n] + es[n..];
    LastWriteSplit(es[m..n], es[n..], key);
    assert es[..n] == es[..m] + es[m..n];
    LastWriteSplit(es[..m], es[m..n], key);
  }

  /** The sorted table answers with the last write of everything flushed. */
  lemma {:induction false} SstIsLastWrite(es: seq<WalEntry>, base: nat, cuts: seq<nat>, deep: Table, key: Key,
                                          nextLsn: nat)
    requires Increasing(es) && CutsOf(es, base, cuts) && Lookup(deep, key) == LastWrite(es[..base], key)
    ensures FlushedUpTo(base, cuts) <= |es|
    ensures SstLookup(State(map[], FlushedTables(es, base, cuts), deep, Idle, nextLsn), key) ==
            LastWrite(es[..FlushedUpTo(base, cuts)], key)
  {
    hide ApplyAll, LastWrite, FlushedTables, ZeroLookup;
    FlushedIsLastWrite(es, base, cuts, key);
    LaterWriteIsNewer(es, 0, base, FlushedUpTo(base, cuts), key);
    assert es[0..base] == es[..base] && es[0..FlushedUpTo(base, cuts)] == es[..FlushedUpTo(base, cuts)];
  }

  /**
   * The restarted engine, replaying from any flushed entry or the first unflushed one, is in a state from which every run
   * keeps the invariant, and its map holds the last write of each key over the whole history.
   */
  lemma {:induction false} RestartedMap(es: seq<WalEntry>, base: nat, cuts: seq<nat>, m: nat, deep: Table, nextLsn: nat)
    requires Increasing(es) && (forall i :: 0 <= i < |es| ==> es[i].lsn < nextLsn) && CutsOf(es, base, cuts)
    requires m <= FlushedUpTo(base, cuts) && forall key :: Lookup(deep, key) == LastWrite(es[..base], key)
    ensures m <= |es|
    ensures
      var s := State(ApplyAll(map[], es[m..]), FlushedTables(es, base, cuts), deep, Idle, nextLsn);
      Inv(s) && forall key :: Value(s, key) == Flatten(LastWrite(es, key))
  {
    hide ApplyAll, LastWrite, FlushedTables, ZeroLookup, Inv, Value;
    RestartInv(es, base, cuts, m, deep, nextLsn);
    var s := State(ApplyAll(map[], es[m..]), FlushedTables(es, base, cuts), deep, Idle, nextLsn);
    forall key ensures Value(s, key) == Flatten(LastWrite(es, key)) {
      SstIsLastWrite(es, base, cuts, deep, key, nextLsn);
      ReplayOverlapIsHarmless(es, FlushedUpTo(base, cuts), m, s.zero, deep, key, nextLsn);
    }
  }

  /** The invariant alone holds whatever the deeper levels hold, and wherever the replay starts. */
  lemma {:induction false} RestartInv(es: seq<WalEntry>, base: nat, cuts: seq<nat>, m: nat, deep: Table, nextLsn: nat)
    requires Increasing(es) && (forall i :: 0 <= i < |es| ==> es[i].lsn < nextLsn) && CutsOf(es, base, cuts)
    requires m <= |es|
    ensures Inv(State(ApplyAll(map[], es[m..]), FlushedTables(es, base, cuts), deep, Idle, nextLsn))
  {
    hide ApplyAll, ZeroLookup;
    TableOfEntries(es, m, |es|);
    assert es[m..|es|] == es[m..];
    var zero := FlushedTables(es, base, cuts);
    forall i | 0 <= i < |zero|
      ensures Below(zero[i], nextLsn) && NotNewer(zero[i], ApplyAll(map[], es[m..]))
    {
      var from, to := FlushedAt(es, base, cuts, i);
      FlushedNotNewer(es, from, to, m);
      TableOfEntries(es, from, to);
    }
    forall i, j | 0 <= i < j < |zero| ensures NotNewer(zero[i], zero[j]) {
      FlushedInOrder(es, base, cuts, i, j);
    }
  }

  /** Of two flushes the later one has the newer writes. */
  lemma {:induction false} FlushedInOrder(es: seq<WalEntry>, base: nat, cuts: seq<nat>, i: nat, j: nat)
    requires Increasing(es) && CutsOf(es, base, cuts) && i < j < |FlushedTables(es, base, cuts)|
    ensures NotNewer(FlushedTables(es, base, cuts)[i], FlushedTables(es, base, cuts)[j])
  {
    hide ApplyAll, FlushedTables;
    var from, to := FlushedAt(es, base, cuts, i);
    var from', to' := FlushedAt(es, base, cuts, j);
    FlushedCount(es, base, cuts);
    TableOfEntries(es, from, to);
    TableOfEntries(es, from', to');
  }

  lemma {:induction false} FlushedCount(es: seq<WalEntry>, base: nat, cuts: seq<nat>)
    requires CutsOf(es, base, cuts)
    ensures |FlushedTables(es, base, cuts)| == |cuts|
    decreases |cuts|
  {
    hide ApplyAll;
    if cuts != [] {
      FlushedCount(es, base, cuts[..|cuts| - 1]);
    }
  }

  lemma {:induction false} FlushedAt(es: seq<WalEntry>, base: nat, cuts: seq<nat>, i: nat) returns (from: nat, to: nat)
    requires CutsOf(es, base, cuts) && i < |FlushedTables(es, base, cuts)|
    ensures from <= to <= |es| && FlushedTables(es, base, cuts)[i] == ApplyAll(map[], es[from..to])
    ensures i < |cuts| && from == (if i == 0 then base else cuts[i - 1]) && to == cuts[i]
    decreases |cuts|
  {
    hide ApplyAll;
    var n := |cuts| - 1;
    FlushedCount(es, base, cuts);
    FlushedCount(es, base, cuts[..n]);
    if i < |FlushedTables(es, base, cuts[..n])| {
      from, to := FlushedAt(es, base, cuts[..n], i);
    } else {
      from, to := if n == 0 then base else cuts[n - 1], cuts[n];
    }
  }

  /** Every value of a replayed table is that of an entry replayed. */
  lemma {:induction false} TableOfEntries(es: seq<WalEntry>, from: nat, to: nat)
    requires from <= to <= |es|
    ensures forall k :: k in ApplyAll(map[], es[from..to]) ==>
                          exists i :: from <= i < to && es[i].key == k && ApplyAll(map[], es[from..to])[k] == ValueOf(es[i])
  {
    hide ApplyAll;
    var part := es[from..to];
    var table := ApplyAll(map[], part);
    forall k | k in table ensures exists i :: from <= i < to && es[i].key == k && table[k] == ValueOf(es[i]) {
      ReplayIsLastWrite(part, k);
      var i := LastWriteIsEntryOf(part, k);
      assert es[from + i] == part[i];
    }
  }

  lemma {:induction false} LastWriteIsEntryOf(es: seq<WalEntry>, key: Key) returns (i: nat)
    requires LastWrite(es, key).Some?
    ensures i < |es| && es[i].key == key && LastWrite(es, key) == Some(ValueOf(es[i]))
    ensures forall j :: i < j < |es| ==> es[j].key != key
  {
    i := |es| - 1;
    if es[i].key != key {
      i := LastWriteIsEntryOf(es[..i], key);
    }
  }

  lemma {:induction false} FlushedNotNewer(es: seq<WalEntry>, from: nat, to: nat, m: nat)
    requires Increasing(es) && from <= to <= |es| && m <= |es|
    ensures NotNewer(ApplyAll(map[], es[from..to]), ApplyAll(map[], es[m..]))
  {
    hide ApplyAll;
    var flushed, table := ApplyAll(map[], es[from..to]), ApplyAll(map[], es[m..]);
    forall k | k in flushed && k in table ensures flushed[k].lsn < table[k].lsn || flushed[k] == table[k] {
      ReplayIsLastWrite(es[from..to], k);
      ReplayIsLastWrite(es[m..], k);
      var i := LastWriteIsEntryOf(es[from..to], k);
      var j := LastWriteIsEntryOf(es[m..], k);
      assert es[from + i] == es[from..to][i] && es[m + j] == es[m..][j];
      if from + i >= m {
        assert es[m..][from + i - m] == es[from + i];
      }
    }
  }
}
