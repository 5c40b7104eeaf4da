/** Sorting of names and keys; stands for the library sort of the original, whose result on distinct keys is unique. */
module Sorting {
  import opened Bytes

  ghost predicate Ascending(s: seq<Key>) {
    forall i, j :: 0 <= i < j < |s| ==> Less(s[i], s[j])
  }

  predicate Distinct<T(==)>(s: seq<T>) {
    forall i, j :: 0 <= i < j < |s| ==> s[i] != s[j]
  }

  function Insert(k: Key, s: seq<Key>): seq<Key> {
    if s == [] || Less(k, s[0]) then [k] + s else [s[0]] + Insert(k, s[1..])
  }

  function Sort(s: seq<Key>): seq<Key> {
    if s == [] then [] else Insert(s[0], Sort(s[1..]))
  }

  lemma {:induction false} InsertMembers(k: Key, s: seq<Key>, x: Key)
    ensures x in Insert(k, s) <==> x == k || x in s
  {
    if s != [] && !Less(k, s[0]) {
      InsertMembers(k, s[1..], x);
      assert s == [s[0]] + s[1..];
    }
  }

  lemma {:induction false} InsertAscending(k: Key, s: seq<Key>)
    requires Ascending(s) && k !in s
    ensures Ascending(Insert(k, s))
  {
    LessIsStrictTotalOrder();
    if s != [] && !Less(k, s[0]) {
      InsertAscending(k, s[1..]);
      var t := Insert(k, s[1..]);
      forall j | 0 <= j < |t| ensures Less(s[0], t[j]) {
        InsertMembers(k, s[1..], t[j]);
      }
    }
  }

  lemma {:induction false} SortMembers(s: seq<Key>, x: Key)
    ensures x in Sort(s) <==> x in s
  {
    if s != [] {
      SortMembers(s[1..], x);
      InsertMembers(s[0], Sort(s[1..]), x);
      assert s == [s[0]] + s[1..];
    }
  }

  /** Distinct keys come out strictly ascending, none lost and none added. */
  lemma {:induction false} SortSorts(s: seq<Key>)
    requires Distinct(s)
    ensures Ascending(Sort(s))
    ensures forall x :: x in Sort(s) <==> x in s
  {
    if s != [] {
      assert Distinct(s[1..]);
      SortSorts(s[1..]);
      InsertAscending(s[0], Sort(s[1..]));
    }
    forall x ensures x in Sort(s) <==> x in s {
      SortMembers(s, x);
    }
  }

  /** There is only one ascending arrangement of a set of keys, so any order of collecting them gives the same list. */
  lemma {:induction false} AscendingUnique(a: seq<Key>, b: seq<Key>)
    requires Ascending(a) && Ascending(b)
    requires forall x :: x in a <==> x in b
    ensures a == b
  {
    LessIsStrictTotalOrder();
    assert a != [] ==> a[0] in b;
    assert b != [] ==> b[0] in a;
    if a != [] {
      assert a[0] == b[0];
      forall x ensures x in a[1..] <==> x in b[1..] {
        TailMembers(a, x);
        TailMembers(b, x);
      }
      AscendingUnique(a[1..], b[1..]);
      assert a == [a[0]] + a[1..] && b == [b[0]] + b[1..];
    }
  }

  lemma {:induction false} TailMembers(s: seq<Key>, x: Key)
    requires Ascending(s) && s != []
    ensures x in s[1..] <==> x in s && x != s[0]
  {
    LessIrreflexive(s[0]);
    assert s == [s[0]] + s[1..];
    if x in s[1..] {
      var j :| 0 <= j < |s| - 1 && s[1..][j] == x;
      assert Less(s[0], s[j + 1]);
    }
  }
}
