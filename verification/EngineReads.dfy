/**
 * What the segments answer is what the engine's state machine says its sorted table answers: the flushed tables are the
 * listings in the segment files, and a lookup by sequence numbers finds the version of the latest flush.
 */
module EngineReads {
  import opened Bytes
  import opened Options
  import opened SsTableEntries
  import opened MemTable
  import opened SsTableSegment
  import opened SsTableWriter
  import opened Levels
  import Store

  /** The entries of the level-zero segments are the listings of the flushed tables. */
  ghost predicate ListsAll(zero: seq<Table>, ess: seq<seq<SsTableEntry>>) {
    |zero| == |ess| && forall i :: 0 <= i < |zero| ==> Lists(zero[i], ess[i])
  }

  function Version(r: Option<SsTableEntry>): Option<MemTableValue> {
    if r.None? then None else Some(MemTableValue(r.value.value, r.value.lsn))
  }

  ghost predicate Has(zero: seq<Table>, key: Key, i: nat, v: MemTableValue) {
    i < |zero| && key in zero[i] && zero[i][key] == v
  }

  /** The lookup over the flushed tables finds a version with the highest sequence number, if there is any. */
  lemma {:induction false} ZeroLookupIs(zero: seq<Table>, key: Key)
    ensures Store.ZeroLookup(zero, key).None? ==> forall i :: 0 <= i < |zero| ==> key !in zero[i]
    ensures Store.ZeroLookup(zero, key).Some? ==>
              && (exists i: nat :: Has(zero, key, i, Store.ZeroLookup(zero, key).value))
              && forall i :: 0 <= i < |zero| && key in zero[i] ==> zero[i][key].lsn <= Store.ZeroLookup(zero, key).value.lsn
    decreases |zero|
  {
    if zero != [] {
      var n := |zero| - 1;
      ZeroLookupIs(zero[..n], key);
      var r := Store.ZeroLookup(zero[..n], key);
      if r.Some? {
        var i: nat :| Has(zero[..n], key, i, r.value);
        assert Has(zero, key, i, r.value);
      }
      if key in zero[n] {
        assert Has(zero, key, n, zero[n][key]);
      }
    }
  }

  /** Of two versions with the same sequence number the values agree. */
  lemma {:induction false} SameVersion(zero: seq<Table>, key: Key, i: nat, j: nat)
    requires Store.InOrder(zero) && i < |zero| && j < |zero| && key in zero[i] && key in zero[j]
    requires zero[i][key].lsn == zero[j][key].lsn
    ensures zero[i][key] == zero[j][key]
  {
    if i < j {
      assert Store.NotNewer(zero[i], zero[j]);
    } else if j < i {
      assert Store.NotNewer(zero[j], zero[i]);
    }
  }

  /** A listing has an entry for a key exactly if the table has it, with the same version. */
  lemma {:induction false} ListedEntry(table: Table, es: seq<SsTableEntry>, key: Key)
    requires Lists(table, es)
    ensures key in table ==> exists q :: 0 <= q < |es| && es[q] == EntryFor(key, table[key])
    ensures forall q :: 0 <= q < |es| && es[q].key == key ==> key in table && es[q] == EntryFor(key, table[key])
  {
    hide StrictlyIncreasing;
  }

  /** The newest version over the segments is what the lookup over the flushed tables gives. */
  lemma {:induction false} NewestIsZeroLookup(zero: seq<Table>, ess: seq<seq<SsTableEntry>>, key: Key,
                                              r: Option<SsTableEntry>)
    requires Store.InOrder(zero) && ListsAll(zero, ess) && Newest(ess, key, r)
    ensures Store.ZeroLookup(zero, key) == Version(r)
  {
    hide Lists, Store.NotNewer, Store.ZeroLookup, Store.InOrder;
    ZeroLookupIs(zero, key);
    var z := Store.ZeroLookup(zero, key);
    if z.Some? {
      var i: nat :| Has(zero, key, i, z.value);
      ListedEntry(zero[i], ess[i], key);
      var q :| 0 <= q < |ess[i]| && ess[i][q] == EntryFor(key, zero[i][key]);
      assert r.Some? && z.value.lsn <= r.value.lsn;
      var j, p :| 0 <= j < |ess| && 0 <= p < |ess[j]| && ess[j][p] == r.value;
      ListedEntry(zero[j], ess[j], key);
      SameVersion(zero, key, i, j);
    } else if r.Some? {
      var j, p :| 0 <= j < |ess| && 0 <= p < |ess[j]| && ess[j][p] == r.value;
      ListedEntry(zero[j], ess[j], key);
      assert false;
    }
  }

  /** The deeper levels as one table. */
  ghost predicate StandsFor(deep: Table, higher: seq<seq<seq<SsTableEntry>>>) {
    forall key, r :: LevelsAnswer(higher, key, r) ==> Lookup(deep, key) == Version(r)
  }

  /**
   * In every reachable state a lookup in the segments answers what the state machine's sorted table answers, so its
   * results, linearizable reads among them, are about what the segment files hold.
   */
  lemma {:induction false} SegmentsAnswer(s: Store.State, zero: seq<seq<SsTableEntry>>,
                                          higher: seq<seq<seq<SsTableEntry>>>, key: Key, r: Option<SsTableEntry>)
    requires Store.Inv(s) && ListsAll(s.zero, zero) && StandsFor(s.deep, higher)
    requires LevelsAnswer([zero] + higher, key, r)
    ensures Store.SstLookup(s, key) == Version(r)
  {
    hide Newest, Occurs, Lists, Store.NotNewer, Store.ZeroLookup, Store.InOrder;
    assert ([zero] + higher)[1..] == higher;
    if Occurs(zero, key) {
      NewestIsZeroLookup(s.zero, zero, key, r);
      NewestOccurs(zero, key, r);
    } else {
      NoneOccurs(zero, key);
      NewestIsZeroLookup(s.zero, zero, key, None);
    }
  }

  lemma {:induction false} NoneOccurs(ess: seq<seq<SsTableEntry>>, key: Key)
    requires !Occurs(ess, key)
    ensures Newest(ess, key, None)
  {
  }
}
