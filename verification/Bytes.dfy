/** Bytes, little-endian integers and the byte-wise key order shared by every file format of the engine. */
module Bytes {

  type byte = x: nat | x < 256
  type u32 = x: nat | x < U32_LIMIT

  const U32_LIMIT: nat := 0x1_0000_0000
  const U64_LIMIT: nat := 0x1_0000_0000_0000_0000

  /** The checksum is a parameter of the log format; nothing below depends on which function it is. */
  type Checksum = seq<byte> -> u32

  function Zeros(n: nat): (z: seq<byte>)
    ensures |z| == n
  {
    seq(n, _ => 0)
  }

  // ---------- little-endian integers ----------

  function Pow256(k: nat): nat {
    if k == 0 then 1 else 256 * Pow256(k - 1)
  }

  /** The `k` low bytes of `n`, least significant first. */
  function ToLE(n: nat, k: nat): (b: seq<byte>)
    ensures |b| == k
  {
    if k == 0 then [] else [n % 256] + ToLE(n / 256, k - 1)
  }

  function FromLE(b: seq<byte>): nat {
    if b == [] then 0 else b[0] + 256 * FromLE(b[1..])
  }

  lemma {:induction false} FromToLE(n: nat, k: nat)
    requires n < Pow256(k)
    ensures FromLE(ToLE(n, k)) == n
  {
    if k != 0 {
      FromToLE(n / 256, k - 1);
      assert ToLE(n, k)[1..] == ToLE(n / 256, k - 1);
    }
  }

  /** Reading a number and writing it again gives the same bytes. */
  lemma {:induction false} ToFromLE(b: seq<byte>)
    ensures ToLE(FromLE(b), |b|) == b
  {
    if b != [] {
      ToFromLE(b[1..]);
      assert FromLE(b) % 256 == b[0] && FromLE(b) / 256 == FromLE(b[1..]);
    }
  }

  lemma {:induction false} FromLEBound(b: seq<byte>)
    ensures FromLE(b) < Pow256(|b|)
  {
    if b != [] {
      FromLEBound(b[1..]);
    }
  }

  lemma {:induction false} Pow256Values()
    ensures Pow256(4) == U32_LIMIT && Pow256(8) == U64_LIMIT
  {
    assert Pow256(2) == 65536;
    assert Pow256(4) == 256 * (256 * Pow256(2));
    assert Pow256(6) == 256 * (256 * Pow256(4));
    assert Pow256(8) == 256 * (256 * Pow256(6));
  }

  /** Four-byte fields hold every value below 2^32. */
  lemma {:induction false} U32RoundTrip(n: nat)
    requires n < U32_LIMIT
    ensures FromLE(ToLE(n, 4)) == n
  {
    Pow256Values();
    FromToLE(n, 4);
  }

  /** Eight-byte fields hold every value below 2^64. */
  lemma {:induction false} U64RoundTrip(n: nat)
    requires n < U64_LIMIT
    ensures FromLE(ToLE(n, 8)) == n
  {
    Pow256Values();
    FromToLE(n, 8);
  }

  // ---------- key order ----------

  type Key = seq<byte>

  /** Byte-wise lexicographic order, the order of strings in the original. */
  predicate Less(a: Key, b: Key) {
    if b == [] then false
    else if a == [] then true
    else if a[0] != b[0] then a[0] < b[0]
    else Less(a[1..], b[1..])
  }

  /** The first difference decides, or else the length. */
  lemma {:induction false} LessIff(a: Key, b: Key)
    ensures Less(a, b) <==> exists k: nat :: FirstDifference(a, b, k) && k < |b| && (k < |a| ==> a[k] < b[k])
  {
    if a != [] && b != [] && a[0] == b[0] {
      LessIff(a[1..], b[1..]);
      forall k: nat ensures FirstDifference(a, b, k + 1) <==> FirstDifference(a[1..], b[1..], k) {
        DifferenceBehind(a, b, k);
      }
      if k: nat :| FirstDifference(a[1..], b[1..], k) && k < |b[1..]| && (k < |a[1..]| ==> a[1..][k] < b[1..][k]) {
        assert FirstDifference(a, b, k + 1);
      }
      if k: nat :| FirstDifference(a, b, k) && k < |b| && (k < |a| ==> a[k] < b[k]) {
        assert k > 0 && FirstDifference(a[1..], b[1..], k - 1);
      }
    } else {
      assert FirstDifference(a, b, 0);
    }
  }

  /** The two keys agree up to position `k`, where they differ or one of them ends. */
  ghost predicate FirstDifference(a: Key, b: Key, k: nat) {
    && k <= |a| && k <= |b| && (forall i :: 0 <= i < k ==> a[i] == b[i])
    && (k < |a| && k < |b| ==> a[k] != b[k])
  }

  lemma {:induction false} DifferenceBehind(a: Key, b: Key, k: nat)
    requires a != [] && b != [] && a[0] == b[0]
    ensures FirstDifference(a, b, k + 1) <==> FirstDifference(a[1..], b[1..], k)
  {
    if FirstDifference(a[1..], b[1..], k) {
      forall i | 0 <= i < k + 1 ensures a[i] == b[i] {
        assert i > 0 ==> a[1..][i - 1] == b[1..][i - 1];
      }
    }
    if FirstDifference(a, b, k + 1) {
      forall i | 0 <= i < k ensures a[1..][i] == b[1..][i] {
        assert a[i + 1] == b[i + 1];
      }
    }
  }

  predicate AtMost(a: Key, b: Key) {
    a == b || Less(a, b)
  }

  lemma {:induction false} LessIrreflexive(a: Key)
    ensures !Less(a, a)
  {
    if a != [] {
      LessIrreflexive(a[1..]);
    }
  }

  lemma {:induction false} LessTransitive(a: Key, b: Key, c: Key)
    requires Less(a, b) && Less(b, c)
    ensures Less(a, c)
  {
    if a != [] && a[0] == b[0] == c[0] {
      LessTransitive(a[1..], b[1..], c[1..]);
    }
  }

  lemma {:induction false} LessConnected(a: Key, b: Key)
    ensures a == b || Less(a, b) || Less(b, a)
  {
    if a != [] && b != [] && a[0] == b[0] {
      LessConnected(a[1..], b[1..]);
      assert a == [a[0]] + a[1..] && b == [b[0]] + b[1..];
    }
  }

  lemma {:induction false} AtMostTransitive(a: Key, b: Key, c: Key)
    requires AtMost(a, b) && AtMost(b, c)
    ensures AtMost(a, c)
    ensures Less(a, b) || Less(b, c) ==> Less(a, c)
  {
    hide Less;
    if Less(a, b) && Less(b, c) {
      LessTransitive(a, b, c);
    }
  }

  lemma {:induction false} AtMostReflexive(k: Key)
    ensures AtMost(k, k)
  {
  }

  lemma {:induction false} LessIsAtMost(a: Key, b: Key)
    ensures Less(a, b) ==> AtMost(a, b)
  {
  }

  lemma {:induction false} LessThenAtMost(a: Key, b: Key, c: Key)
    requires Less(a, b) && AtMost(b, c)
    ensures Less(a, c)
  {
    hide Less;
    AtMostTransitive(a, b, c);
  }

  lemma {:induction false} AtMostThenLess(a: Key, b: Key, c: Key)
    requires AtMost(a, b) && Less(b, c)
    ensures Less(a, c)
  {
    hide Less;
    AtMostTransitive(a, b, c);
  }

  lemma {:induction false} AtMostIsNotAbove(a: Key, b: Key)
    ensures AtMost(a, b) <==> !Less(b, a)
  {
    hide Less;
    LessIrreflexive(a);
    LessConnected(a, b);
    if Less(a, b) && Less(b, a) {
      LessTransitive(a, b, a);
    }
  }

  /** `Less` is a strict total order: the one fact most of the sorted structures need. */
  lemma {:induction false} LessIsStrictTotalOrder()
    ensures forall a: Key :: !Less(a, a)
    ensures forall a: Key, b: Key, c: Key {:trigger Less(a, b), Less(b, c)} :: Less(a, b) && Less(b, c) ==> Less(a, c)
    ensures forall a: Key, b: Key {:trigger Less(a, b)} :: a == b || Less(a, b) || Less(b, a)
  {
    forall a: Key ensures !Less(a, a) {
      LessIrreflexive(a);
    }
    forall a: Key, b: Key, c: Key | Less(a, b) && Less(b, c) ensures Less(a, c) {
      LessTransitive(a, b, c);
    }
    forall a: Key, b: Key ensures a == b || Less(a, b) || Less(b, a) {
      LessConnected(a, b);
    }
  }
}
