/**
 * The formats on disk, down to the byte: what the encoders write for sample data, and which characters names consist of.
 */
module Formats {
  import opened Bytes
  import opened Options
  import opened WalRecord
  import opened WalNames
  import opened SsTableIndex
  import opened SsTableSegment
  import E = SsTableEntries

  function Ascii(s: string): (b: seq<byte>)
    requires forall i :: 0 <= i < |s| ==> s[i] as int < 256
    ensures |b| == |s| && forall i :: 0 <= i < |b| ==> b[i] == s[i] as int
  {
    seq(|s|, i requires 0 <= i < |s| => s[i] as int)
  }

  // ---------- numbers ----------

  /** Byte `i` of the little-endian form counts the multiples of 256 to the power `i`. */
  lemma {:induction false} LittleEndian(n: nat, k: nat, i: nat)
    requires i < k
    ensures Pow256(i) > 0 && ToLE(n, k)[i] == n / Pow256(i) % 256
  {
    if i > 0 {
      LittleEndian(n / 256, k - 1, i - 1);
      DivTwice(n, Pow256(i - 1));
    }
  }

  lemma {:induction false} DivTwice(n: nat, p: nat)
    requires p > 0
    ensures n / (256 * p) == n / 256 / p
  {
    var a, b, r := n / 256 / p, n / 256 % p, n % 256;
    assert n / 256 == a * p + b;
    Regroup(a, p);
    DivUnique(n, 256 * p, a, 256 * b + r);
  }

  lemma {:induction false} Regroup(a: nat, p: nat)
    ensures 256 * (a * p) == a * (256 * p)
  {
  }

  lemma {:induction false} Small(n: nat)
    requires n < 256
    ensures ToLE(n, 4) == [n, 0, 0, 0] && ToLE(n, 8) == [n, 0, 0, 0, 0, 0, 0, 0]
  {
    ZeroLE(3);
    ZeroLE(7);
    assert ToLE(n, 4) == [n] + ToLE(0, 3) && ToLE(n, 8) == [n] + ToLE(0, 7);
  }

  /** The four bytes of a larger one. */
  lemma {:induction false} Large()
    ensures ToLE(0x01020304, 4) == [4, 3, 2, 1]
  {
    assert ToLE(1, 1) == [1] && ToLE(0x0102, 2) == [2] + ToLE(1, 1) && ToLE(0x010203, 3) == [3] + ToLE(0x0102, 2);
  }

  // ---------- the write-ahead log ----------

  /** `put("ab", "c")` and `delete("ab")` under sequence number 7. */
  lemma {:induction false} RecordBytes(crc: Checksum)
    ensures
      var body := [1, 2, 0, 0, 0, 97, 98, 1, 0, 0, 0, 99, 7, 0, 0, 0, 0, 0, 0, 0];
      Encode(crc, WalEntry(Put, [97, 98], Some([99]), 7)) == [24, 0, 0, 0] + ToLE(crc(body), 4) + body
    ensures
      var body := [2, 2, 0, 0, 0, 97, 98, 7, 0, 0, 0, 0, 0, 0, 0];
      Encode(crc, WalEntry(Delete, [97, 98], None, 7)) == [19, 0, 0, 0] + ToLE(crc(body), 4) + body
  {
    hide ToLE;
    Small(1);
    Small(2);
    Small(7);
    Small(19);
    Small(24);
    var put, delete := WalEntry(Put, [97, 98], Some([99]), 7), WalEntry(Delete, [97, 98], None, 7);
    assert Body(put) == [1, 2, 0, 0, 0, 97, 98, 1, 0, 0, 0, 99, 7, 0, 0, 0, 0, 0, 0, 0];
    assert Body(delete) == [2, 2, 0, 0, 0, 97, 98, 7, 0, 0, 0, 0, 0, 0, 0];
  }

  lemma {:induction false} DigitIs(d: nat)
    requires d < 16
    ensures Digit(d) == Ascii("0123456789abcdef")[d]
  {
  }

  lemma {:induction false} HexFive()
    ensures Hex(0, 8) == Ascii("00000000") && Hex(5, 8) == Ascii("00000005")
  {
    HexZero(8);
    HexZero(7);
    assert Hex(5, 8) == Hex(0, 7) + [Digit(5)];
  }

  lemma {:induction false} HexThree()
    ensures Hex(0x2ab, 8) == Ascii("000002ab")
  {
    HexZero(5);
    assert Hex(0x2, 6) == Hex(0, 5) + [Digit(2)];
    assert Hex(0x2a, 7) == Hex(0x2, 6) + [Digit(10)];
    assert Hex(0x2ab, 8) == Hex(0x2a, 7) + [Digit(11)];
  }

  /** A name is lower-case hexadecimal with the extension `.wal`: logical log 5, segment 0x2ab of one mebibyte. */
  lemma {:induction false} NameBytes()
    ensures DetermineSegmentFilename(0, 5 * 0x1_0000_0000 + 0x2ab * 0x10_0000 + 9, 0x10_0000) ==
            Ascii("00000000" + "00000005" + "000002ab" + ".wal")
  {
    hide DetermineSegmentFilename, LowerHex, ZeroPad, Hex;
    var lsn := 5 * 0x1_0000_0000 + 0x2ab * 0x10_0000 + 9;
    NameParts(lsn, 0x10_0000);
    HexFive();
    HexThree();
    assert EXTENSION == Ascii(".wal");
  }

  // ---------- segments ----------

  lemma {:induction false} ValueBytes()
    ensures E.Encode(E.SsTableEntry([97, 98], Some([99]), 7)) ==
            [2, 0, 0, 0, 97, 98, 1, 0, 0, 0, 0, 99, 7, 0, 0, 0, 0, 0, 0, 0]
  {
    hide ToLE;
    Small(1);
    Small(2);
    Small(7);
  }

  lemma {:induction false} TombstoneBytes()
    ensures E.Encode(E.SsTableEntry([97, 98], None, 7)) == [2, 0, 0, 0, 97, 98, 0, 0, 0, 0, 1, 7, 0, 0, 0, 0, 0, 0, 0]
  {
    hide ToLE;
    Small(0);
    Small(2);
    Small(7);
  }

  /** An entry with the value "c" and a tombstone, both for the key "ab" and under sequence number 7, in their frames. */
  lemma {:induction false} EntryBytes()
    ensures E.Frame(E.SsTableEntry([97, 98], Some([99]), 7)) ==
            [20, 0, 0, 0] + [2, 0, 0, 0, 97, 98, 1, 0, 0, 0, 0, 99, 7, 0, 0, 0, 0, 0, 0, 0]
    ensures E.Frame(E.SsTableEntry([97, 98], None, 7)) ==
            [19, 0, 0, 0] + [2, 0, 0, 0, 97, 98, 0, 0, 0, 0, 1, 7, 0, 0, 0, 0, 0, 0, 0]
  {
    hide ToLE, E.Encode;
    Small(19);
    Small(20);
    ValueBytes();
    TombstoneBytes();
  }

  /** An index entry: the key's length in eight bytes, the key, the offset. */
  lemma {:induction false} IndexEntryBytes()
    ensures EncodeEntry(IndexEntry([97, 98], 9)) == [2, 0, 0, 0, 0, 0, 0, 0, 97, 98, 9, 0, 0, 0, 0, 0, 0, 0]
  {
    hide ToLE;
    Small(2);
    Small(9);
  }

  /** The footer: where the index begins, and the letters `rkvs`. */
  lemma {:induction false} FooterBytes()
    ensures Footer(9) == [9, 0, 0, 0, 0, 0, 0, 0] + Ascii("rkvs")
  {
    hide ToLE;
    Small(9);
  }
}
