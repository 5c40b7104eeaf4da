/** The two writers of segment files: the memtable flush and the entry-by-entry writer of merges. */
module SsTableWriter {
  import opened Bytes
  import opened Options
  import opened Sorting
  import opened SsTableEntries
  import opened SsTableIndex
  import opened SsTableSegment
  import M = MemTable

  function EntryFor(key: Key, v: M.MemTableValue): SsTableEntry {
    SsTableEntry(key, v.value, v.lsn)
  }

  predicate TableValid(table: M.Table) {
    forall k :: k in table ==> EntryFor(k, table[k]).Valid()
  }

  function EntriesFor(table: M.Table, keys: seq<Key>): (es: seq<SsTableEntry>)
    requires forall k :: k in keys ==> k in table
    ensures |es| == |keys|
    ensures forall i :: 0 <= i < |es| ==> es[i] == EntryFor(keys[i], table[keys[i]])
  {
    seq(|keys|, i requires 0 <= i < |keys| => EntryFor(keys[i], table[keys[i]]))
  }

  /** The table as the ascending list of its entries. */
  ghost predicate Lists(table: M.Table, es: seq<SsTableEntry>) {
    && StrictlyIncreasing(es)
    && (forall i :: 0 <= i < |es| ==> es[i].key in table && es[i] == EntryFor(es[i].key, table[es[i].key]))
    && (forall k :: k in table ==> EntryFor(k, table[k]) in es)
  }

  /** The keys of the table in whatever order the hash map yields them. */
  method CollectKeys(table: M.Table) returns (keys: seq<Key>)
    ensures Distinct(keys) && forall k :: k in keys <==> k in table
  {
    keys := [];
    var left := table.Keys;
    while left != {}
      invariant left <= table.Keys
      invariant Distinct(keys)
      invariant forall k :: k in keys <==> k in table && k !in left
      decreases |left|
    {
      var k: Key :| k in left;
      left := left - {k};
      keys := keys + [k];
    }
  }

  lemma {:induction false} ListsSorted(table: M.Table, keys: seq<Key>)
    requires Ascending(keys) && forall k :: k in keys <==> k in table
    ensures Lists(table, EntriesFor(table, keys))
  {
    hide Less;
    var es := EntriesFor(table, keys);
    forall k | k in table ensures EntryFor(k, table[k]) in es {
      var i :| 0 <= i < |keys| && keys[i] == k;
      assert es[i] == EntryFor(k, table[k]);
    }
  }

  /** A table has only one listing. */
  lemma {:induction false} ListsUnique(table: M.Table, a: seq<SsTableEntry>, b: seq<SsTableEntry>)
    requires Lists(table, a) && Lists(table, b)
    ensures a == b
  {
    hide Less;
    var ka, kb := KeysOf(a), KeysOf(b);
    forall k ensures k in ka <==> k in table && k in kb {
      KeysOfListing(table, a, k);
      KeysOfListing(table, b, k);
    }
    AscendingUnique(ka, kb);
    forall i | 0 <= i < |a| ensures a[i] == b[i] {
      assert a[i].key == ka[i] == kb[i] == b[i].key;
    }
  }

  function KeysOf(es: seq<SsTableEntry>): (keys: seq<Key>)
    ensures |keys| == |es| && forall i :: 0 <= i < |es| ==> keys[i] == es[i].key
  {
    seq(|es|, i requires 0 <= i < |es| => es[i].key)
  }

  lemma {:induction false} KeysOfListing(table: M.Table, es: seq<SsTableEntry>, k: Key)
    requires Lists(table, es)
    ensures k in KeysOf(es) <==> k in table
    ensures Ascending(KeysOf(es))
  {
    hide Less;
    if k in table {
      var i :| 0 <= i < |es| && es[i] == EntryFor(k, table[k]);
      assert KeysOf(es)[i] == k;
    }
  }

  function FileOf(es: seq<SsTableEntry>, ixs: seq<IndexEntry>): seq<byte> {
    Frames(es) + EncodeAll(ixs) + Footer(|Frames(es)|)
  }

  /** The flush: sorted entries, every `sparsity`-th one indexed, starting with the first. */
  method SegmentFileFromMemtable(table: M.Table, sparsity: nat) returns (file: seq<byte>, ghost es: seq<SsTableEntry>)
    requires sparsity > 0
    ensures Lists(table, es)
    ensures forall listing :: Lists(table, listing) ==> file == FileOf(listing, SparseIndex(listing, sparsity, 0))
  {
    hide Less, Frames, Frame, Encode, ToLE, Footer, EncodeAll, Ascending, Distinct, SparseIndex, Lists, Sort;
    var collected := CollectKeys(table);
    SortSorts(collected);
    var keys := Sort(collected);
    ListsSorted(table, keys);
    es := EntriesFor(table, keys);
    var index := NO_INDEX;
    var counter, offset := 0, 0;
    file := [];
    assert es[..0] == [];
    FramesNone(es);
    SparseIndexNone(es, sparsity);
    for i := 0 to |keys|
      invariant counter == i && file == Frames(es[..i]) && offset == |file|
      invariant index.indices == SparseIndex(es[..i], sparsity, 0)
    {
      var key := keys[i];
      SparseIndexSnoc(es, i, sparsity, 0);
      if counter % sparsity == 0 {
        index := index.Add(key, offset);
      }
      var entry := EntryFor(key, table[key]);
      FrameWrites(es, i);
      var bytes := SsTableEntries.ToBytes(entry);
      file := file + ToLE(|bytes|, 4);
      offset := offset + 4;
      file := file + bytes;
      offset := offset + entry.Len();
      counter := counter + 1;
    }
    assert es[..|keys|] == es;
    var indexBytes := SsTableIndex.ToBytes(index);
    file := file + indexBytes;
    file := file + Footer(offset);
    forall listing | Lists(table, listing) ensures file == FileOf(listing, SparseIndex(listing, sparsity, 0)) {
      ListsUnique(table, listing, es);
    }
  }

  /** The two writes of one entry extend the data block by its frame. */
  lemma {:induction false} FrameWrites(es: seq<SsTableEntry>, i: nat)
    requires i < |es|
    ensures Frames(es[..i + 1]) == Frames(es[..i]) + ToLE(|Encode(es[i])|, 4) + Encode(es[i])
    ensures |Frames(es[..i + 1])| == |Frames(es[..i])| + 4 + es[i].Len() && |Encode(es[i])| == es[i].Len()
  {
    hide Frames, Frame, Encode, ToLE;
    FramesNext(es, i);
    FrameParts(es[i]);
  }

  lemma {:induction false} FramesNone(es: seq<SsTableEntry>)
    ensures Frames(es[..0]) == []
  {
  }

  lemma {:induction false} SparseIndexNone(es: seq<SsTableEntry>, sparsity: nat)
    requires sparsity > 0
    ensures SparseIndex(es[..0], sparsity, 0) == []
  {
  }

  lemma {:induction false} FrameParts(e: SsTableEntry)
    ensures Frame(e) == ToLE(|Encode(e)|, 4) + Encode(e) && |Encode(e)| == e.Len()
  {
  }

  lemma {:induction false} SparseIndexSnoc(es: seq<SsTableEntry>, i: nat, sparsity: nat, phase: nat)
    requires sparsity > 0 && i < |es|
    ensures SparseIndex(es[..i + 1], sparsity, phase) ==
            SparseIndex(es[..i], sparsity, phase)
            + if (i + phase) % sparsity == 0 then [IndexEntry(es[i].key, |Frames(es[..i])|)] else []
  {
    hide Frames;
    assert es[..i + 1][..i] == es[..i];
  }

  /** What the plain table answers, in terms of its listing. */
  lemma {:induction false} ListingAnswers(table: M.Table, es: seq<SsTableEntry>, key: Key, r: Option<SsTableEntry>)
    requires Lists(table, es) && Answers(es, key, r)
    ensures r == if key in table then Some(EntryFor(key, table[key])) else None
  {
    hide Less;
    if key in table {
      assert EntryFor(key, table[key]) in es;
    }
  }

  /** Flushing a table, opening the file and looking a key up gives what the table says, for every sparsity. */
  method FlushOpenGet(table: M.Table, sparsity: nat, number: nat, key: Key) returns (res: GetResult)
    requires sparsity > 0 && table != map[] && TableValid(table)
    requires TotalFrames(table.Keys, table) < U64_LIMIT
    ensures res == Found(if key in table then Some(EntryFor(key, table[key])) else None)
  {
    hide Less, Frames, Frame, EncodeAll, Footer, Indexes, Answers, StrictlyIncreasing;
    var file, es := SegmentFileFromMemtable(table, sparsity);
    SparseIndexIndexes(es, sparsity, 0);
    ghost var ixs := SparseIndex(es, sparsity, 0);
    ListedEntries(table, es);
    assert IsSegmentFile(file, es, ixs);
    var segment := FromFile(file, number, es, ixs);
    res := Get(segment.segment, key, es);
    ListingAnswers(table, es, key, res.entry);
  }

  /** The bytes the data block of a table needs. */
  ghost function TotalFrames(keys: set<Key>, table: M.Table): nat
    requires keys <= table.Keys
  {
    if keys == {} then 0
    else
      var k :| k in keys;
      FrameLen(EntryFor(k, table[k])) + TotalFrames(keys - {k}, table)
  }

  lemma {:induction false} TotalFramesTake(keys: set<Key>, table: M.Table, k: Key)
    requires keys <= table.Keys && k in keys
    ensures TotalFrames(keys, table) == FrameLen(EntryFor(k, table[k])) + TotalFrames(keys - {k}, table)
    decreases |keys|
  {
    var j :| j in keys && TotalFrames(keys, table) == FrameLen(EntryFor(j, table[j])) + TotalFrames(keys - {j}, table);
    if j != k {
      TotalFramesTake(keys - {j}, table, k);
      TotalFramesTake(keys - {k}, table, j);
      assert keys - {j} - {k} == keys - {k} - {j};
    }
  }

  lemma {:induction false} ListedLength(table: M.Table, es: seq<SsTableEntry>, keys: set<Key>)
    requires StrictlyIncreasing(es)
    requires forall i :: 0 <= i < |es| ==> es[i].key in table && es[i] == EntryFor(es[i].key, table[es[i].key])
    requires keys <= table.Keys && forall k :: k in keys <==> exists i :: 0 <= i < |es| && es[i].key == k
    ensures |Frames(es)| == TotalFrames(keys, table)
    decreases |es|
  {
    hide Less, Frame;
    LessIsStrictTotalOrder();
    if es == [] {
      assert keys == {};
    } else {
      var k := es[0].key;
      TotalFramesTake(keys, table, k);
      var rest := es[1..];
      forall x ensures x in keys - {k} <==> exists i :: 0 <= i < |rest| && rest[i].key == x {
        if x in keys - {k} {
          var i :| 0 <= i < |es| && es[i].key == x;
          assert rest[i - 1].key == x;
        }
        if i :| 0 <= i < |rest| && rest[i].key == x {
          assert es[i + 1].key == x && Less(es[0].key, es[i + 1].key);
        }
      }
      ListedLength(table, rest, keys - {k});
    }
  }

  lemma {:induction false} ListedEntries(table: M.Table, es: seq<SsTableEntry>)
    requires Lists(table, es) && table != map[] && TableValid(table)
    ensures es != [] && AllValid(es) && |Frames(es)| == TotalFrames(table.Keys, table)
  {
    hide Less, Frames;
    var k :| k in table;
    assert EntryFor(k, table[k]) in es;
    forall x ensures x in table.Keys <==> exists i :: 0 <= i < |es| && es[i].key == x {
      if x in table {
        var i :| 0 <= i < |es| && es[i] == EntryFor(x, table[x]);
        assert es[i].key == x;
      }
    }
    ListedLength(table, es, table.Keys);
  }

  // ---------- the entry-by-entry writer ----------

  const SEGMENT_SIZE: nat := 1024 * 1024 * 64

  /** What the index counts for: key, eight bytes and four for every `sparsity`-th entry. */
  function IndexedLen(es: seq<SsTableEntry>, sparsity: nat): nat
    requires sparsity > 0
  {
    if es == [] then 0
    else
      var n := |es| - 1;
      IndexedLen(es[..n], sparsity) + if |es| % sparsity == 0 then |es[n].key| + 12 else 0
  }

  /** The size of a file of these entries, as the writer counts it: data block, index, and a footer of twelve bytes. */
  function CountedLen(es: seq<SsTableEntry>, sparsity: nat): nat
    requires sparsity > 0
  {
    |Frames(es)| + IndexedLen(es, sparsity) + 12
  }

  lemma {:induction false} IndexCounts(es: seq<SsTableEntry>, sparsity: nat)
    requires sparsity > 0
    ensures AddAll(SparseIndex(es, sparsity, 1)).len == IndexedLen(es, sparsity)
    decreases |es|
  {
    hide AddAll, SparseIndex, Frames;
    if es == [] {
      NothingIndexed(es, sparsity);
    } else {
      var n := |es| - 1;
      IndexCounts(es[..n], sparsity);
      assert es == es[..n] + [es[n]];
      IndexAfter(es[..n], es[n], sparsity);
    }
  }

  lemma {:induction false} NothingIndexed(es: seq<SsTableEntry>, sparsity: nat)
    requires sparsity > 0 && es == []
    ensures AddAll(SparseIndex(es, sparsity, 1)).len == 0
  {
  }

  class SegmentWriter {
    var written: seq<byte>
    var currSize: nat
    var index: SegmentIndex
    var entriesWritten: nat
    var finished: bool
    const indexSparsityFactor: nat
    const targetSize: nat
    ghost var entries: seq<SsTableEntry>

    ghost predicate Valid()
      reads this
    {
      && indexSparsityFactor > 0
      && entriesWritten == |entries| && currSize == |Frames(entries)|
      && index == AddAll(SparseIndex(entries, indexSparsityFactor, 1))
      && index.indices == SparseIndex(entries, indexSparsityFactor, 1)
      && written == if finished then FileOf(entries, index.indices) else Frames(entries)
    }

    /** Writes to a new, empty file. */
    constructor CreateNewSegment(indexSparsityFactor: nat)
      requires indexSparsityFactor > 0
      ensures Valid() && entries == [] && !finished && currSize == 0
      ensures this.indexSparsityFactor == indexSparsityFactor && targetSize == SEGMENT_SIZE == 67108864
    {
      written, currSize, index, entriesWritten, finished, entries := [], 0, NO_INDEX, 0, false, [];
      this.indexSparsityFactor := indexSparsityFactor;
      targetSize := SEGMENT_SIZE;
    }

    predicate ReachedTargetSize(): (r: bool)
      requires Valid()
      reads this
      ensures r <==> CountedLen(entries, indexSparsityFactor) >= targetSize
    {
      hide AddAll, SparseIndex, Frames, FileOf;
      IndexCounts(entries, indexSparsityFactor);
      currSize + index.len + SEGMENT_FOOTER_LEN >= targetSize
    }

    method WriteEntry(e: SsTableEntry)
      requires Valid() && !finished
      modifies this
      ensures Valid() && !finished && entries == old(entries) + [e] && currSize == old(currSize) + FrameLen(e)
    {
      hide Frames, Frame, Encode, ToLE, SparseIndex, AddAll, FileOf;
      var bytes := SsTableEntries.ToBytes(e);
      ghost var es := entries + [e];
      assert es[..|entries|] == entries && es[..|entries| + 1] == es;
      FrameWrites(es, |entries|);
      IndexAfter(entries, e, indexSparsityFactor);
      written := written + ToLE(|bytes|, 4);
      written := written + bytes;
      entriesWritten := entriesWritten + 1;
      if entriesWritten % indexSparsityFactor == 0 {
        index := index.Add(e.key, currSize);
      }
      currSize := currSize + |bytes| + 4;
      entries := es;
    }

    method WriteIndexAndFooter()
      requires Valid() && !finished
      modifies this
      ensures Valid() && finished && entries == old(entries)
    {
      var indexBytes := SsTableIndex.ToBytes(index);
      written := written + indexBytes;
      written := written + Footer(currSize);
      finished := true;
    }
  }

  /** What one more entry does to the index of a merge segment. */
  lemma {:induction false} IndexAfter(es: seq<SsTableEntry>, e: SsTableEntry, sparsity: nat)
    requires sparsity > 0
    ensures
      var old', new' := SparseIndex(es, sparsity, 1), SparseIndex(es + [e], sparsity, 1);
      if (|es| + 1) % sparsity == 0
      then new' == old' + [IndexEntry(e.key, |Frames(es)|)] && AddAll(new') == AddAll(old').Add(e.key, |Frames(es)|)
      else new' == old'
  {
    hide Frames, AddAll;
    var es' := es + [e];
    assert es'[..|es|] == es && es'[..|es| + 1] == es';
    SparseIndexSnoc(es', |es|, sparsity, 1);
    AddAllSnoc(SparseIndex(es, sparsity, 1), IndexEntry(e.key, |Frames(es)|));
  }

  lemma {:induction false} AddAllSnoc(ixs: seq<IndexEntry>, i: IndexEntry)
    ensures AddAll(ixs + [i]) == AddAll(ixs).Add(i.key, i.offset)
  {
    assert (ixs + [i])[..|ixs|] == ixs;
  }

  /** A finished merge segment can be opened and stands for the entries written to it. */
  lemma {:induction false} FinishedIsSegmentFile(w: SegmentWriter)
    requires w.Valid() && w.finished && w.entries != [] && AllValid(w.entries) && |Frames(w.entries)| < U64_LIMIT
    ensures IsSegmentFile(w.written, w.entries, w.index.indices)
  {
    hide Frames, EncodeAll, Footer;
    SparseIndexIndexes(w.entries, w.indexSparsityFactor, 1);
  }
}
