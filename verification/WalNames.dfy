/** Segment file names: the hexadecimal form of a log sequence number's segment, and what reading it back gives. */
module WalNames {
  import opened Bytes

  const LOGICAL_LOG: nat := 0x1_0000_0000

  function Digit(d: nat): byte
    requires d < 16
  {
    if d < 10 then 48 + d else 87 + d
  }

  function DigitValue(c: byte): nat {
    if 48 <= c < 58 then c - 48 else if 97 <= c < 103 then c - 87 else 0
  }

  /** `format!("{:x}", n)` */
  function LowerHex(n: nat): seq<byte> {
    if n < 16 then [Digit(n)] else LowerHex(n / 16) + [Digit(n % 16)]
  }

  /** Leading zeros up to a width; the original panics on a longer string. */
  function ZeroPad(s: seq<byte>, width: nat): (r: seq<byte>)
    requires |s| <= width
    ensures |r| == width
  {
    seq(width - |s|, _ => 48) + s
  }

  function FromHex(s: seq<byte>): nat {
    if s == [] then 0 else 16 * FromHex(s[..|s| - 1]) + DigitValue(s[|s| - 1])
  }

  function Pow16(k: nat): nat {
    if k == 0 then 1 else 16 * Pow16(k - 1)
  }

  /** The last `width` hexadecimal digits of `n`. */
  function Hex(n: nat, width: nat): (s: seq<byte>)
    ensures |s| == width
  {
    if width == 0 then [] else Hex(n / 16, width - 1) + [Digit(n % 16)]
  }

  lemma {:induction false} Pow16Values()
    ensures Pow16(8) == LOGICAL_LOG && Pow16(16) == U64_LIMIT
  {
    assert Pow16(4) == 16 * (16 * (16 * (16 * Pow16(0))));
    assert Pow16(8) == 16 * (16 * (16 * (16 * Pow16(4))));
    assert Pow16(12) == 16 * (16 * (16 * (16 * Pow16(8))));
    assert Pow16(16) == 16 * (16 * (16 * (16 * Pow16(12))));
  }

  lemma {:induction false} PaddedHex(n: nat, width: nat)
    requires 0 < width && n < Pow16(width)
    ensures |LowerHex(n)| <= width && ZeroPad(LowerHex(n), width) == Hex(n, width)
  {
    if n < 16 {
      HexZero(width - 1);
      assert n / 16 == 0;
    } else {
      assert width > 1 by {
        assert Pow16(1) == 16 * Pow16(0);
      }
      PaddedHex(n / 16, width - 1);
      assert ZeroPad(LowerHex(n), width) == ZeroPad(LowerHex(n / 16), width - 1) + [Digit(n % 16)];
    }
  }

  lemma {:induction false} HexZero(width: nat)
    ensures Hex(0, width) == seq(width, _ => 48)
  {
    if width > 0 {
      HexZero(width - 1);
    }
  }

  lemma {:induction false} FromHexOfHex(n: nat, width: nat)
    requires n < Pow16(width)
    ensures FromHex(Hex(n, width)) == n
  {
    if width > 0 {
      FromHexOfHex(n / 16, width - 1);
      assert Hex(n, width)[..width - 1] == Hex(n / 16, width - 1);
    }
  }

  /** The first of sixteen digits' two halves. */
  lemma {:induction false} HexHigh(n: nat)
    ensures Hex(n, 16)[..8] == Hex(n / LOGICAL_LOG, 8)
  {
    HexDrop(n, 16);
    HexDrop(n / 0x1_0000, 12);
    assert n / 0x1_0000 / 0x1_0000 == n / LOGICAL_LOG;
    assert Hex(n, 16)[..8] == Hex(n, 16)[..12][..8];
  }

  lemma {:induction false} HexDrop(n: nat, width: nat)
    requires width >= 4
    ensures Hex(n, width)[..width - 4] == Hex(n / 0x1_0000, width - 4)
  {
    var a, b, c, d := n / 16, n / 256, n / 4096, n / 0x1_0000;
    assert a / 16 == b && b / 16 == c && c / 16 == d;
    assert Hex(n, width) == Hex(a, width - 1) + [Digit(n % 16)];
    assert Hex(a, width - 1) == Hex(b, width - 2) + [Digit(a % 16)];
    assert Hex(b, width - 2) == Hex(c, width - 3) + [Digit(b % 16)];
    assert Hex(c, width - 3) == Hex(d, width - 4) + [Digit(c % 16)];
  }

  lemma {:induction false} HexLow(n: nat, width: nat, k: nat)
    requires k <= width
    ensures Hex(n, width)[width - k..] == Hex(n, k)
  {
    if k > 0 {
      HexLow(n / 16, width - 1, k - 1);
      assert Hex(n, width)[width - k..] == Hex(n / 16, width - 1)[width - k..] + [Digit(n % 16)];
    }
  }

  // ---------- order ----------

  lemma {:induction false} LessExtends(x: Key, y: Key, u: Key, v: Key)
    requires |x| == |y| && Less(x, y)
    ensures Less(x + u, y + v)
  {
    if x[0] == y[0] {
      LessExtends(x[1..], y[1..], u, v);
      assert (x + u)[1..] == x[1..] + u && (y + v)[1..] == y[1..] + v;
    }
  }

  lemma {:induction false} LessAfter(x: Key, u: Key, v: Key)
    requires Less(u, v)
    ensures Less(x + u, x + v)
  {
    if x == [] {
      assert x + u == u && x + v == v;
    } else {
      LessAfter(x[1..], u, v);
      assert (x + u)[1..] == x[1..] + u && (x + v)[1..] == x[1..] + v;
    }
  }

  lemma {:induction false} HexOrder(a: nat, b: nat, width: nat)
    requires a < b < Pow16(width)
    ensures Less(Hex(a, width), Hex(b, width))
  {
    if a / 16 < b / 16 {
      HexOrder(a / 16, b / 16, width - 1);
      LessExtends(Hex(a / 16, width - 1), Hex(b / 16, width - 1), [Digit(a % 16)], [Digit(b % 16)]);
    } else {
      assert a / 16 == b / 16 && a % 16 < b % 16;
      LessAfter(Hex(a / 16, width - 1), [Digit(a % 16)], [Digit(b % 16)]);
    }
  }

  // ---------- division ----------

  lemma {:induction false} DivAtMost(a: nat, b: nat)
    requires b > 0
    ensures a / b <= a && a / b * b <= a
  {
    assert a == a / b * b + a % b;
    if a / b > a {
      MulAtLeast(a / b, 1, b);
    }
  }

  lemma {:induction false} MulAtLeast(a: nat, k: nat, n: nat)
    requires a >= k && n > 0
    ensures a * n >= k * n && a * n >= a
  {
  }

  lemma {:induction false} MulMinus(a: nat, b: nat, n: nat)
    ensures (a - b) * n == a * n - b * n
  {
  }

  /** Two-digit numbers in base `n` are equal only digit by digit, and ordered by the higher digit first. */
  lemma {:induction false} TwoDigits(n: nat, p: nat, q: nat, p': nat, q': nat)
    requires q < n && q' < n
    ensures p * n + q == p' * n + q' ==> p == p' && q == q'
    ensures p * n + q < p' * n + q' ==> p < p' || (p == p' && q < q')
  {
    if p < p' {
      MulMinus(p', p, n);
      MulAtLeast(p' - p, 1, n);
    } else if p' < p {
      MulMinus(p, p', n);
      MulAtLeast(p - p', 1, n);
    }
  }

  lemma {:induction false} DivUnique(a: nat, b: nat, q: nat, r: nat)
    requires b > 0 && a == q * b + r && r < b
    ensures a / b == q && a % b == r
  {
    assert a == a / b * b + a % b;
    TwoDigits(b, a / b, a % b, q, r);
  }

  /** `x` whole multiples come out of a division. */
  lemma {:induction false} DivOfSum(x: nat, y: nat, n: nat)
    requires n > 0
    ensures (x * n + y) / n == x + y / n
  {
    var q, r := y / n, y % n;
    assert y == q * n + r;
    MulPlus(x, q, n);
    DivUnique(x * n + y, n, x + q, r);
  }

  lemma {:induction false} MulPlus(a: nat, b: nat, n: nat)
    ensures (a + b) * n == a * n + b * n
  {
  }

  // ---------- names ----------

  const EXTENSION: seq<byte> := [46, 119, 97, 108]

  lemma {:induction false} NameFits(timeline: u32, lsn: nat, segmentSize: nat)
    requires lsn < U64_LIMIT && segmentSize > 0
    ensures |LowerHex(timeline)| <= 8 && |LowerHex(lsn)| <= 16 && |LowerHex(lsn % LOGICAL_LOG / segmentSize)| <= 16
    ensures lsn % LOGICAL_LOG / segmentSize < LOGICAL_LOG
  {
    hide LowerHex, Hex, ZeroPad;
    Pow16Values();
    DivAtMost(lsn % LOGICAL_LOG, segmentSize);
    PaddedHex(timeline, 8);
    PaddedHex(lsn, 16);
    PaddedHex(lsn % LOGICAL_LOG / segmentSize, 16);
  }

  /** Timeline, logical log, and number of the segment in it, each eight digits. */
  function DetermineSegmentFilename(timeline: u32, lsn: nat, segmentSize: nat): (name: seq<byte>)
    requires lsn < U64_LIMIT && segmentSize > 0
  {
    hide LowerHex;
    NameFits(timeline, lsn, segmentSize);
    ZeroPad(LowerHex(timeline), 8)
    + ZeroPad(LowerHex(lsn), 16)[0..8]
    + ZeroPad(LowerHex(lsn % LOGICAL_LOG / segmentSize), 16)[8..]
    + EXTENSION
  }

  /** The base sequence number a segment reads from its name. */
  function BaseLsn(name: seq<byte>, segmentSize: nat): nat
    requires |name| >= 24
  {
    FromHex(name[8..16]) * LOGICAL_LOG + FromHex(name[16..24]) * segmentSize
  }

  lemma {:induction false} NameParts(lsn: nat, segmentSize: nat)
    requires lsn < U64_LIMIT && segmentSize > 0
    ensures lsn % LOGICAL_LOG / segmentSize < LOGICAL_LOG
    ensures DetermineSegmentFilename(0, lsn, segmentSize) ==
            Hex(0, 8) + Hex(lsn / LOGICAL_LOG, 8) + Hex(lsn % LOGICAL_LOG / segmentSize, 8) + EXTENSION
  {
    hide LowerHex, Hex, ZeroPad;
    Pow16Values();
    NameFits(0, lsn, segmentSize);
    var segmentNo := lsn % LOGICAL_LOG / segmentSize;
    PaddedHex(0, 8);
    PaddedHex(lsn, 16);
    PaddedHex(segmentNo, 16);
    HexHigh(lsn);
    HexLow(segmentNo, 16, 8);
  }

  lemma {:induction false} NameFields(lsn: nat, segmentSize: nat)
    requires lsn < U64_LIMIT && segmentSize > 0
    ensures
      var name := DetermineSegmentFilename(0, lsn, segmentSize);
      && |name| == 28
      && FromHex(name[8..16]) == lsn / LOGICAL_LOG
      && FromHex(name[16..24]) == lsn % LOGICAL_LOG / segmentSize
  {
    hide Hex, DetermineSegmentFilename, FromHex;
    Pow16Values();
    NameParts(lsn, segmentSize);
    var name := DetermineSegmentFilename(0, lsn, segmentSize);
    assert name[8..16] == Hex(lsn / LOGICAL_LOG, 8);
    assert name[16..24] == Hex(lsn % LOGICAL_LOG / segmentSize, 8);
    FromHexOfHex(lsn / LOGICAL_LOG, 8);
    FromHexOfHex(lsn % LOGICAL_LOG / segmentSize, 8);
  }

  /** The name of the segment for a sequence number gives back that number, rounded down to a segment boundary. */
  lemma {:induction false} NameGivesBase(lsn: nat, segmentSize: nat)
    requires lsn < U64_LIMIT && segmentSize > 0 && LOGICAL_LOG % segmentSize == 0
    ensures |DetermineSegmentFilename(0, lsn, segmentSize)| == 28
    ensures BaseLsn(DetermineSegmentFilename(0, lsn, segmentSize), segmentSize) == lsn / segmentSize * segmentSize
  {
    NameFields(lsn, segmentSize);
    LogOfLsn(lsn, segmentSize);
  }

  /** The segment number of the whole log, from the two fields of the name. */
  lemma {:induction false} LogOfLsn(lsn: nat, segmentSize: nat)
    requires segmentSize > 0 && LOGICAL_LOG % segmentSize == 0
    ensures
      var perLog := LOGICAL_LOG / segmentSize;
      && perLog * segmentSize == LOGICAL_LOG
      && lsn / segmentSize == lsn / LOGICAL_LOG * perLog + lsn % LOGICAL_LOG / segmentSize
      && lsn % LOGICAL_LOG / segmentSize < perLog
      && lsn / LOGICAL_LOG * LOGICAL_LOG + lsn % LOGICAL_LOG / segmentSize * segmentSize == lsn / segmentSize * segmentSize
  {
    var perLog := LOGICAL_LOG / segmentSize;
    var hi, lo := lsn / LOGICAL_LOG, lsn % LOGICAL_LOG;
    assert perLog * segmentSize == LOGICAL_LOG;
    assert lsn == hi * LOGICAL_LOG + lo;
    MulThree(hi, perLog, segmentSize);
    DivOfSum(hi * perLog, lo, segmentSize);
    MulPlus(hi * perLog, lo / segmentSize, segmentSize);
    DivAtMost(lo, segmentSize);
    if lo / segmentSize >= perLog {
      MulAtLeast(lo / segmentSize, perLog, segmentSize);
    }
  }

  lemma {:induction false} MulThree(a: nat, b: nat, c: nat)
    ensures a * (b * c) == a * b * c
  {
  }

  /** Rounding down is faithful for every sequence number exactly when the segment size divides 2^32. */
  lemma {:induction false} NamesFaithfulIff(segmentSize: nat)
    requires segmentSize > 0
    ensures (forall lsn: nat :: lsn < U64_LIMIT ==>
               |DetermineSegmentFilename(0, lsn, segmentSize)| >= 24 &&
               BaseLsn(DetermineSegmentFilename(0, lsn, segmentSize), segmentSize) == lsn / segmentSize * segmentSize)
            <==> LOGICAL_LOG % segmentSize == 0
  {
    if LOGICAL_LOG % segmentSize == 0 {
      forall lsn: nat | lsn < U64_LIMIT
        ensures |DetermineSegmentFilename(0, lsn, segmentSize)| >= 24
        ensures BaseLsn(DetermineSegmentFilename(0, lsn, segmentSize), segmentSize) == lsn / segmentSize * segmentSize
      {
        NameGivesBase(lsn, segmentSize);
      }
    } else {
      NameFields(LOGICAL_LOG, segmentSize);
      assert LOGICAL_LOG % LOGICAL_LOG / segmentSize == 0;
      assert BaseLsn(DetermineSegmentFilename(0, LOGICAL_LOG, segmentSize), segmentSize) == LOGICAL_LOG;
      assert LOGICAL_LOG / segmentSize * segmentSize == LOGICAL_LOG - LOGICAL_LOG % segmentSize;
    }
  }

  /** Sorting names as strings sorts segments by base sequence number; equal segments have equal names. */
  lemma {:induction false} NameOrder(a: nat, b: nat, segmentSize: nat)
    requires a < U64_LIMIT && b < U64_LIMIT && segmentSize > 0 && LOGICAL_LOG % segmentSize == 0
    ensures
      var x := DetermineSegmentFilename(0, a, segmentSize);
      var y := DetermineSegmentFilename(0, b, segmentSize);
      && (a / segmentSize < b / segmentSize <==> Less(x, y))
      && (a / segmentSize == b / segmentSize <==> x == y)
  {
    hide DetermineSegmentFilename, Less;
    if a / segmentSize < b / segmentSize {
      NameOrderStrict(a, b, segmentSize);
      NamesAreAsymmetric(a, b, segmentSize);
    } else if b / segmentSize < a / segmentSize {
      NameOrderStrict(b, a, segmentSize);
      NamesAreAsymmetric(b, a, segmentSize);
    } else {
      NameOfSameSegment(a, b, segmentSize);
      LessIrreflexive(DetermineSegmentFilename(0, a, segmentSize));
    }
  }

  lemma {:induction false} NameOfSameSegment(a: nat, b: nat, segmentSize: nat)
    requires a < U64_LIMIT && b < U64_LIMIT && segmentSize > 0 && LOGICAL_LOG % segmentSize == 0
    requires a / segmentSize == b / segmentSize
    ensures DetermineSegmentFilename(0, a, segmentSize) == DetermineSegmentFilename(0, b, segmentSize)
  {
    hide Hex, DetermineSegmentFilename;
    NameParts(a, segmentSize);
    NameParts(b, segmentSize);
    LogOfLsn(a, segmentSize);
    LogOfLsn(b, segmentSize);
    TwoDigits(LOGICAL_LOG / segmentSize, a / LOGICAL_LOG, a % LOGICAL_LOG / segmentSize,
              b / LOGICAL_LOG, b % LOGICAL_LOG / segmentSize);
  }

  lemma {:induction false} NamesAreAsymmetric(a: nat, b: nat, segmentSize: nat)
    requires a < U64_LIMIT && b < U64_LIMIT && segmentSize > 0
    requires Less(DetermineSegmentFilename(0, a, segmentSize), DetermineSegmentFilename(0, b, segmentSize))
    ensures DetermineSegmentFilename(0, a, segmentSize) != DetermineSegmentFilename(0, b, segmentSize)
    ensures !Less(DetermineSegmentFilename(0, b, segmentSize), DetermineSegmentFilename(0, a, segmentSize))
  {
    hide DetermineSegmentFilename, Less;
    var x := DetermineSegmentFilename(0, a, segmentSize);
    var y := DetermineSegmentFilename(0, b, segmentSize);
    LessIrreflexive(x);
    if Less(y, x) {
      LessTransitive(x, y, x);
    }
  }

  lemma {:induction false} NameOrderStrict(a: nat, b: nat, segmentSize: nat)
    requires a < U64_LIMIT && b < U64_LIMIT && segmentSize > 0 && LOGICAL_LOG % segmentSize == 0
    requires a / segmentSize < b / segmentSize
    ensures Less(DetermineSegmentFilename(0, a, segmentSize), DetermineSegmentFilename(0, b, segmentSize))
  {
    hide DetermineSegmentFilename, Hex, Less;
    NameParts(a, segmentSize);
    NameParts(b, segmentSize);
    LogOfLsn(a, segmentSize);
    LogOfLsn(b, segmentSize);
    var p, q := a / LOGICAL_LOG, a % LOGICAL_LOG / segmentSize;
    var p', q' := b / LOGICAL_LOG, b % LOGICAL_LOG / segmentSize;
    TwoDigits(LOGICAL_LOG / segmentSize, p, q, p', q');
    assert p < LOGICAL_LOG && p' < LOGICAL_LOG;
    FieldsOrder(p, q, p', q');
  }

  lemma {:induction false} FieldsOrder(p: nat, q: nat, p': nat, q': nat)
    requires p < LOGICAL_LOG && p' < LOGICAL_LOG && q < LOGICAL_LOG && q' < LOGICAL_LOG
    requires p < p' || (p == p' && q < q')
    ensures Less(Hex(0, 8) + Hex(p, 8) + Hex(q, 8) + EXTENSION, Hex(0, 8) + Hex(p', 8) + Hex(q', 8) + EXTENSION)
  {
    hide Hex, Less;
    Pow16Values();
    var front := Hex(0, 8);
    if p < p' {
      HexOrder(p, p', 8);
      LessAfter(front, Hex(p, 8), Hex(p', 8));
      LessExtends(front + Hex(p, 8), front + Hex(p', 8), Hex(q, 8) + EXTENSION, Hex(q', 8) + EXTENSION);
      assert front + Hex(p, 8) + Hex(q, 8) + EXTENSION == front + Hex(p, 8) + (Hex(q, 8) + EXTENSION);
      assert front + Hex(p', 8) + Hex(q', 8) + EXTENSION == front + Hex(p', 8) + (Hex(q', 8) + EXTENSION);
    } else {
      HexOrder(q, q', 8);
      LessAfter(front + Hex(p, 8), Hex(q, 8), Hex(q', 8));
      LessExtends(front + Hex(p, 8) + Hex(q, 8), front + Hex(p, 8) + Hex(q', 8), EXTENSION, EXTENSION);
    }
  }

  // ---------- which files recovery lists ----------

  /** Whether a file of this name and current length counts as holding entries behind a sequence number. */
  predicate FinalEntryAfter(name: seq<byte>, fileSize: nat, lsn: nat)
    requires |name| >= 24
  {
    lsn < FromHex(name[8..16]) * LOGICAL_LOG + fileSize * (FromHex(name[16..24]) + 1)
  }

  /** The test in terms of the segment number: its two digits in base 2^32 / segment size. */
  lemma {:induction false} FinalEntryAfterMeans(segmentSize: nat, number: nat, fileSize: nat, lsn: nat)
    requires segmentSize > 0 && LOGICAL_LOG % segmentSize == 0 && number * segmentSize < U64_LIMIT
    ensures
      var name := DetermineSegmentFilename(0, number * segmentSize, segmentSize);
      var hi, lo := number * segmentSize / LOGICAL_LOG, number * segmentSize % LOGICAL_LOG / segmentSize;
      && |name| >= 24
      && hi * LOGICAL_LOG + lo * segmentSize == number * segmentSize
      && (FinalEntryAfter(name, fileSize, lsn) <==> lsn < hi * LOGICAL_LOG + fileSize * (lo + 1))
  {
    hide DetermineSegmentFilename, FromHex;
    NameFields(number * segmentSize, segmentSize);
    LogOfLsn(number * segmentSize, segmentSize);
    DivUnique(number * segmentSize, segmentSize, number, 0);
  }

  /** It never counts a file that ends before the sequence number, and is exact for full files. */
  lemma {:induction false} FinalEntryAfterFull(segmentSize: nat, number: nat, fileSize: nat, lsn: nat)
    requires segmentSize > 0 && LOGICAL_LOG % segmentSize == 0 && number * segmentSize < U64_LIMIT
    requires fileSize <= segmentSize
    ensures
      var name := DetermineSegmentFilename(0, number * segmentSize, segmentSize);
      && |name| >= 24
      && (FinalEntryAfter(name, fileSize, lsn) ==> lsn < number * segmentSize + fileSize)
      && (fileSize == segmentSize ==> (FinalEntryAfter(name, fileSize, lsn) <==> lsn < number * segmentSize + segmentSize))
  {
    hide DetermineSegmentFilename, FromHex, FinalEntryAfter;
    FinalEntryAfterMeans(segmentSize, number, fileSize, lsn);
    var lo := number * segmentSize % LOGICAL_LOG / segmentSize;
    MulMonotone(fileSize, segmentSize, lo);
    assert fileSize * (lo + 1) == fileSize * lo + fileSize;
  }

  lemma {:induction false} MulMonotone(a: nat, b: nat, n: nat)
    requires a <= b
    ensures a * n <= b * n && b * n == n * b
  {
  }

  /**
   * The test tells exactly the files that reach behind a sequence number, for every sequence number, if and only
   * if the file is full or is the first segment of its logical log: it multiplies by the file's current length.
   */
  lemma {:induction false} FinalEntryAfterExactIff(segmentSize: nat, number: nat, fileSize: nat)
    requires segmentSize > 0 && LOGICAL_LOG % segmentSize == 0 && number * segmentSize < U64_LIMIT
    requires fileSize <= segmentSize
    ensures |DetermineSegmentFilename(0, number * segmentSize, segmentSize)| >= 24
    ensures (forall lsn: nat :: FinalEntryAfter(DetermineSegmentFilename(0, number * segmentSize, segmentSize), fileSize, lsn)
                                <==> lsn < number * segmentSize + fileSize)
            <==> fileSize == segmentSize || number * segmentSize % LOGICAL_LOG / segmentSize == 0
  {
    hide DetermineSegmentFilename, FromHex, FinalEntryAfter;
    var name := DetermineSegmentFilename(0, number * segmentSize, segmentSize);
    var base := number * segmentSize;
    var hi, lo := base / LOGICAL_LOG, base % LOGICAL_LOG / segmentSize;
    FinalEntryAfterFull(segmentSize, number, fileSize, 0);
    if fileSize == segmentSize || lo == 0 {
      forall lsn: nat
        ensures FinalEntryAfter(name, fileSize, lsn) <==> lsn < base + fileSize
      {
        FinalEntryAfterFull(segmentSize, number, fileSize, lsn);
        FinalEntryAfterMeans(segmentSize, number, fileSize, lsn);
      }
    } else {
      var lsn := hi * LOGICAL_LOG + fileSize * (lo + 1);
      FinalEntryAfterMeans(segmentSize, number, fileSize, lsn);
      MulPlusStrict(fileSize, segmentSize, lo);
      assert fileSize * (lo + 1) == fileSize * lo + fileSize;
      assert !FinalEntryAfter(name, fileSize, lsn) && lsn < base + fileSize;
    }
  }

  lemma {:induction false} MulPlusStrict(a: nat, b: nat, n: nat)
    requires a < b && n > 0
    ensures a * n < b * n && b * n == n * b
  {
  }
}
