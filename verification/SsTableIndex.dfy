/** The sparse index of a segment: its byte form and the search through it. */
module SsTableIndex {
  import opened Bytes
  import opened Options

  datatype IndexEntry = IndexEntry(key: Key, offset: nat) {
    predicate Valid() {
      |key| < U32_LIMIT && offset < U64_LIMIT
    }
  }

  /** `len` is the running estimate the writer compares with its target size. */
  datatype SegmentIndex = SegmentIndex(indices: seq<IndexEntry>, len: nat) {

    function Add(key: Key, offset: nat): SegmentIndex {
      SegmentIndex(indices + [IndexEntry(key, offset)], len + |key| + 8 + 4)
    }
  }

  const NO_INDEX := SegmentIndex([], 0)

  datatype IndexSearchResult = Match(offset: nat) | Range(start: nat, end: Option<nat>)

  // ---------- byte form ----------

  /** The key length is written as four bytes into a slot of eight. */
  function EncodeEntry(i: IndexEntry): (b: seq<byte>)
    ensures |b| == 16 + |i.key|
  {
    ToLE(|i.key|, 4) + Zeros(4) + i.key + ToLE(i.offset, 8)
  }

  function EncodeAll(ixs: seq<IndexEntry>): seq<byte> {
    if ixs == [] then [] else EncodeEntry(ixs[0]) + EncodeAll(ixs[1..])
  }

  /** None stands for the panic of a slice out of range. */
  function DecodeAll(b: seq<byte>): Option<seq<IndexEntry>>
    decreases |b|
  {
    if b == [] then Some([])
    else if |b| < 8 || |b| < 8 + FromLE(b[..8]) + 8 then None
    else
      var keyLen := FromLE(b[..8]);
      var rest := DecodeAll(b[8 + keyLen + 8..]);
      if rest.None? then None
      else Some([IndexEntry(b[8..8 + keyLen], FromLE(b[8 + keyLen..8 + keyLen + 8]))] + rest.value)
  }

  lemma {:induction false} ToLEPadded(n: nat, k: nat, m: nat)
    requires n < Pow256(k)
    ensures ToLE(n, k) + Zeros(m) == ToLE(n, k + m)
  {
    if k == 0 {
      ZeroLE(m);
    } else {
      ToLEPadded(n / 256, k - 1, m);
      assert ToLE(n, k) + Zeros(m) == [n % 256] + (ToLE(n / 256, k - 1) + Zeros(m));
    }
  }

  lemma {:induction false} ZeroLE(m: nat)
    ensures ToLE(0, m) == Zeros(m)
  {
    if m != 0 {
      ZeroLE(m - 1);
    }
  }

  /** The eight-byte read of a length written in four bytes. */
  lemma {:induction false} KeyLenRoundTrip(n: nat)
    requires n < U32_LIMIT
    ensures FromLE(ToLE(n, 4) + Zeros(4)) == n
  {
    hide ToLE, FromLE;
    Pow256Values();
    ToLEPadded(n, 4, 4);
    U64RoundTrip(n);
  }

  lemma {:induction false} DecodeFront(i: IndexEntry, tail: seq<byte>)
    requires i.Valid()
    ensures
      var b := EncodeEntry(i) + tail;
      && FromLE(b[..8]) == |i.key| && b[8..8 + |i.key|] == i.key
      && FromLE(b[8 + |i.key|..16 + |i.key|]) == i.offset
      && b[16 + |i.key|..] == tail
  {
    hide ToLE, FromLE, Zeros;
    var b := EncodeEntry(i) + tail;
    KeyLenRoundTrip(|i.key|);
    U64RoundTrip(i.offset);
    assert b[..8] == ToLE(|i.key|, 4) + Zeros(4);
    assert b[8 + |i.key|..16 + |i.key|] == ToLE(i.offset, 8);
  }

  lemma {:induction false} DecodeAllStep(i: IndexEntry, tail: seq<byte>)
    requires i.Valid()
    ensures DecodeAll(EncodeEntry(i) + tail) ==
            var rest := DecodeAll(tail);
            if rest.None? then None else Some([i] + rest.value)
  {
    hide FromLE, EncodeEntry;
    DecodeFront(i, tail);
  }

  predicate AllValidIndices(ixs: seq<IndexEntry>) {
    forall j :: 0 <= j < |ixs| ==> ixs[j].Valid()
  }

  lemma {:induction false} DecodeAllEmpty()
    ensures DecodeAll([]) == Some([])
  {
  }

  /** An index written out and read back is the same index. */
  lemma {:induction false} DecodeEncodeAll(ixs: seq<IndexEntry>)
    requires AllValidIndices(ixs)
    ensures DecodeAll(EncodeAll(ixs)) == Some(ixs)
  {
    hide EncodeEntry, DecodeAll;
    if ixs == [] {
      DecodeAllEmpty();
    } else {
      DecodeAllStep(ixs[0], EncodeAll(ixs[1..]));
      DecodeEncodeAll(ixs[1..]);
      assert ixs == [ixs[0]] + ixs[1..];
    }
  }

  lemma {:induction false} EncodeSnoc(ixs: seq<IndexEntry>, i: IndexEntry)
    ensures EncodeAll(ixs + [i]) == EncodeAll(ixs) + EncodeEntry(i)
  {
    hide EncodeEntry;
    if ixs == [] {
      assert [] + [i] == [i];
      var none: seq<IndexEntry> := [i][1..];
      assert none == [];
    } else {
      EncodeSnoc(ixs[1..], i);
      assert (ixs + [i])[1..] == ixs[1..] + [i];
    }
  }

  method ToBytes(index: SegmentIndex) returns (buf: seq<byte>)
    ensures buf == EncodeAll(index.indices)
  {
    hide EncodeEntry;
    buf := [];
    var ixs := index.indices;
    for j := 0 to |ixs|
      invariant buf == EncodeAll(ixs[..j])
    {
      assert ixs[..j + 1] == ixs[..j] + [ixs[j]];
      EncodeSnoc(ixs[..j], ixs[j]);
      buf := buf + EncodeEntry(ixs[j]);
    }
    assert ixs[..|ixs|] == ixs;
  }

  lemma {:induction false} DecodeStep(b: seq<byte>, offset: nat)
    requires offset <= |b|
    ensures
      var r := DecodeAll(b[offset..]);
      if offset == |b| then r == Some([])
      else if |b| < offset + 8 || |b| < offset + 8 + FromLE(b[offset..offset + 8]) + 8 then r == None
      else
        var keyLen := FromLE(b[offset..offset + 8]);
        var rest := DecodeAll(b[offset + 8 + keyLen + 8..]);
        r == if rest.None? then None
             else Some([IndexEntry(b[offset + 8..offset + 8 + keyLen],
                                   FromLE(b[offset + 8 + keyLen..offset + 8 + keyLen + 8]))] + rest.value)
  {
    hide FromLE;
    var s := b[offset..];
    if offset + 8 <= |b| {
      assert s[..8] == b[offset..offset + 8];
      var keyLen := FromLE(s[..8]);
      if offset + 8 + keyLen + 8 <= |b| {
        assert s[8..8 + keyLen] == b[offset + 8..offset + 8 + keyLen];
        assert s[8 + keyLen..8 + keyLen + 8] == b[offset + 8 + keyLen..offset + 8 + keyLen + 8];
        assert s[8 + keyLen + 8..] == b[offset + 8 + keyLen + 8..];
      }
    }
  }

  /** The decoding loop. */
  method FromBytes(buf: seq<byte>) returns (index: SegmentIndex, panics: bool)
    ensures panics <==> DecodeAll(buf).None?
    ensures !panics ==> DecodeAll(buf) == Some(index.indices)
  {
    hide FromLE, DecodeAll;
    index := NO_INDEX;
    panics := false;
    var offset := 0;
    assert buf[0..] == buf;
    ghost var whole := DecodeAll(buf);
    assert whole.Some? ==> [] + whole.value == whole.value;
    while offset < |buf|
      invariant 0 <= offset <= |buf|
      invariant var rest := DecodeAll(buf[offset..]);
                DecodeAll(buf) == if rest.None? then None else Some(index.indices + rest.value)
    {
      DecodeStep(buf, offset);
      if |buf| < offset + 8 {
        panics := true;
        return;
      }
      var keyLen := FromLE(buf[offset..offset + 8]);
      if |buf| < offset + 8 + keyLen + 8 {
        panics := true;
        return;
      }
      var key, o := buf[offset + 8..offset + 8 + keyLen], FromLE(buf[offset + 8 + keyLen..offset + 8 + keyLen + 8]);
      offset := offset + 8 + keyLen + 8;
      RejoinIndex(index.indices, IndexEntry(key, o), DecodeAll(buf[offset..]));
      index := index.Add(key, o);
    }
    DecodeStep(buf, offset);
    assert index.indices + [] == index.indices;
  }

  lemma {:induction false} RejoinIndex(a: seq<IndexEntry>, i: IndexEntry, rest: Option<seq<IndexEntry>>)
    ensures rest.Some? ==> a + ([i] + rest.value) == (a + [i]) + rest.value
  {
  }

  /** What `Add` keeps track of falls four bytes per entry short of what is written. */
  function AddAll(ixs: seq<IndexEntry>): SegmentIndex
    decreases |ixs|
  {
    if ixs == [] then NO_INDEX
    else AddAll(ixs[..|ixs| - 1]).Add(ixs[|ixs| - 1].key, ixs[|ixs| - 1].offset)
  }

  lemma {:induction false} LenUnderestimates(ixs: seq<IndexEntry>)
    ensures AddAll(ixs).indices == ixs
    ensures |EncodeAll(ixs)| == AddAll(ixs).len + 4 * |ixs|
    decreases |ixs|
  {
    hide EncodeEntry, EncodeAll, AddAll;
    if ixs == [] {
      NoIndexLen(ixs);
    } else {
      var front, last := ixs[..|ixs| - 1], ixs[|ixs| - 1];
      LenUnderestimates(front);
      assert ixs == front + [last];
      EncodeSnoc(front, last);
      AddAllLast(ixs);
    }
  }

  lemma {:induction false} NoIndexLen(ixs: seq<IndexEntry>)
    requires ixs == []
    ensures AddAll(ixs) == NO_INDEX && EncodeAll(ixs) == []
  {
  }

  lemma {:induction false} AddAllLast(ixs: seq<IndexEntry>)
    requires ixs != []
    ensures AddAll(ixs) == AddAll(ixs[..|ixs| - 1]).Add(ixs[|ixs| - 1].key, ixs[|ixs| - 1].offset)
  {
  }

  // ---------- search ----------

  ghost predicate KeysAscend(ixs: seq<IndexEntry>) {
    forall i, j :: 0 <= i < j < |ixs| ==> Less(ixs[i].key, ixs[j].key)
  }

  /** Entry `b - 1` is the last one not above `key`. */
  ghost predicate Floor(ixs: seq<IndexEntry>, key: Key, b: nat) {
    && b <= |ixs|
    && (forall i :: 0 <= i < b ==> AtMost(ixs[i].key, key))
    && (forall i :: b <= i < |ixs| ==> Less(key, ixs[i].key))
  }

  /** The bisection that rounds its midpoint up; safe on any index, right on an ascending one. */
  method BinarySearch(ixs: seq<IndexEntry>, key: Key) returns (idx: nat)
    requires ixs != []
    ensures idx < |ixs|
    ensures KeysAscend(ixs) && AtMost(ixs[0].key, key) ==> Floor(ixs, key, idx + 1)
  {
    hide Less;
    LessIsStrictTotalOrder();
    var l, r := 0, |ixs| - 1;
    var m := (l + r) / 2 + 1;
    while l < r
      invariant 0 <= l <= r < |ixs|
      invariant m == (l + r) / 2 + 1
      invariant KeysAscend(ixs) && AtMost(ixs[0].key, key) ==>
                  (forall i :: 0 <= i <= l ==> AtMost(ixs[i].key, key)) && (forall i :: r < i < |ixs| ==> Less(key, ixs[i].key))
      decreases r - l
    {
      if AtMost(ixs[m].key, key) {
        l := m;
      } else {
        r := m - 1;
      }
      m := (l + r) / 2 + 1;
    }
    idx := l;
  }

  /** Where the block that can hold `key` starts and ends, or the entry itself. */
  function Located(ixs: seq<IndexEntry>, key: Key, b: nat): IndexSearchResult
    requires b <= |ixs|
  {
    if b > 0 && ixs[b - 1].key == key then Match(ixs[b - 1].offset)
    else Range(if b == 0 then 0 else ixs[b - 1].offset, if b < |ixs| then Some(ixs[b].offset) else None)
  }

  /** Behind the last index entry not above the key: that entry if it has the key, else the block up to the next one. */
  ghost predicate FoundAt(ixs: seq<IndexEntry>, key: Key, b: nat, res: IndexSearchResult) {
    && Floor(ixs, key, b)
    && (if b > 0 && ixs[b - 1].key == key then res == Match(ixs[b - 1].offset)
        else res == Range(if b == 0 then 0 else ixs[b - 1].offset, if b == |ixs| then None else Some(ixs[b].offset)))
  }

  method Find(ixs: seq<IndexEntry>, key: Key) returns (res: IndexSearchResult)
    ensures KeysAscend(ixs) ==> exists b: nat :: b <= |ixs| && Floor(ixs, key, b) && res == Located(ixs, key, b)
    ensures KeysAscend(ixs) ==> exists b: nat :: FoundAt(ixs, key, b, res)
  {
    hide Less;
    LessIsStrictTotalOrder();
    ghost var b: nat := 0;
    if ixs == [] {
      res := Range(0, None);
    } else if Less(key, ixs[0].key) {
      res := Range(0, Some(ixs[0].offset));
    } else {
      var idx := BinarySearch(ixs, key);
      if key == ixs[idx].key {
        res := Match(ixs[idx].offset);
      } else if idx < |ixs| - 1 {
        res := Range(ixs[idx].offset, Some(ixs[idx + 1].offset));
      } else {
        res := Range(ixs[idx].offset, None);
      }
      b := idx + 1;
    }
    assert KeysAscend(ixs) ==> Floor(ixs, key, b);
    assert res == Located(ixs, key, b);
    assert KeysAscend(ixs) ==> FoundAt(ixs, key, b, res);
  }
}
