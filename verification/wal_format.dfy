/** The record format byte by byte (include/pg/wal.h, lines 36-49): where each field lies, in which byte order, and
    exactly when a record at the front of some bytes is taken for whole and undamaged. */
module WalFormat {
  import opened StorageTypes
  import opened WalLog

  // ---- byte order -----------------------------------------------------------

  lemma DivideTwice(v: nat, p: nat)
    requires p > 0
    ensures v / 256 / p == v / (256 * p)
  {
    var q, r := v / 256 / p, v / 256 % p;
    assert v / 256 == p * q + r;
    assert v == 256 * (p * q + r) + v % 256;
    assert v == (256 * p) * q + (256 * r + v % 256);
    assert 0 <= 256 * r + v % 256 < 256 * p;
    QuotientIs(v, 256 * p, q, 256 * r + v % 256);
  }

  lemma Monotone(d: nat, a: nat, b: nat)
    requires a <= b
    ensures d * a <= d * b
  {
  }

  lemma QuotientIs(v: nat, d: nat, q: nat, r: nat)
    requires d > 0 && v == d * q + r && r < d
    ensures v / d == q
  {
    var q' := v / d;
    if q' < q {
      Monotone(d, q' + 1, q);
    } else if q' > q {
      Monotone(d, q + 1, q');
    }
  }

  /** Byte k of a field is the k-th least significant byte of its value. */
  lemma {:induction false} LittleEndian(v: nat, width: nat, k: nat)
    requires k < width
    ensures ToBytes(v, width)[k] == v / Pow256(k) % 256
  {
    if k > 0 {
      LittleEndian(v / 256, width - 1, k - 1);
      DivideTwice(v, Pow256(k - 1));
    }
  }

  // ---- where the fields lie -----------------------------------------------------

  lemma {:induction false} BytesReadBack(s: seq<Byte>)
    ensures ToBytes(FromBytes(s), |s|) == s && FromBytes(s) < Pow256(|s|)
  {
    if s != [] {
      BytesReadBack(s[1..]);
    }
  }

  lemma {:induction false} UnpackedPacks(s: seq<Byte>, widths: seq<nat>)
    requires |s| >= Total(widths)
    ensures Pack(Unpack(s, widths), widths) == s[..Total(widths)]
  {
    if widths != [] {
      BytesReadBack(s[..widths[0]]);
      UnpackedPacks(s[widths[0]..], widths[1..]);
      assert s[..Total(widths)] == s[..widths[0]] + s[widths[0]..][..Total(widths[1..])];
    }
  }

  lemma {:induction false} PackSnoc(values: seq<nat>, widths: seq<nat>, v: nat, w: nat)
    requires |values| == |widths|
    ensures Pack(values + [v], widths + [w]) == Pack(values, widths) + ToBytes(v, w)
  {
    if values == [] {
      assert Pack([v], [w]) == ToBytes(v, w) + Pack([v][1..], [w][1..]);
    } else {
      assert (values + [v])[1..] == values[1..] + [v] && (widths + [w])[1..] == widths[1..] + [w];
      PackSnoc(values[1..], widths[1..], v, w);
    }
  }

  lemma UnpackOne(s: seq<Byte>, w: nat)
    requires |s| >= w
    ensures Total([] + [w]) == w && Total([]) == 0 && Unpack(s, []) == []
    ensures Unpack(s, [] + [w]) == [FromBytes(s[0..w])]
  {
    assert [] + [w] == [w] && [w][1..] == [];
    assert Total([w]) == w + Total([w][1..]);
    assert s[0..w] == s[..w];
    assert Unpack(s, [w]) == [FromBytes(s[..w])] + Unpack(s[w..], [w][1..]);
  }

  lemma {:induction false} UnpackSnoc(s: seq<Byte>, widths: seq<nat>, w: nat)
    requires |s| >= Total(widths) + w
    ensures Total(widths + [w]) == Total(widths) + w
    ensures Unpack(s, widths + [w]) == Unpack(s, widths) + [FromBytes(s[Total(widths)..Total(widths) + w])]
  {
    if widths == [] {
      UnpackOne(s, w);
    } else {
      assert (widths + [w])[1..] == widths[1..] + [w];
      UnpackSnoc(s[widths[0]..], widths[1..], w);
      assert s[widths[0]..][Total(widths[1..])..Total(widths[1..]) + w] == s[Total(widths)..Total(widths) + w];
    }
  }

  const BEFORE_CRC: seq<nat> := [8, 8, 4, 1, 4, 2, 4]

  lemma BeforeCrcAddsUp()
    ensures Total(BEFORE_CRC) == 31 && WIDTHS == BEFORE_CRC + [4]
  {
    assert Total([4]) == 4;
    assert Total([2, 4]) == 6;
    assert Total([4, 2, 4]) == 10;
    assert Total([1, 4, 2, 4]) == 11;
    assert Total([4, 1, 4, 2, 4]) == 15;
    assert Total([8, 4, 1, 4, 2, 4]) == 23;
  }

  lemma FieldsUpTo16(s: seq<Byte>)
    requires |s| >= 31
    ensures Total([8, 8]) == 16 && Unpack(s, [8, 8]) == [FromBytes(s[0..8]), FromBytes(s[8..16])]
  {
    assert Total([]) == 0 && Unpack(s, []) == [];
    UnpackSnoc(s, [], 8);
    UnpackSnoc(s, [8], 8);
    assert [] + [8] == [8] && [8] + [8] == [8, 8];
  }

  lemma FieldsUpTo21(s: seq<Byte>)
    requires |s| >= 31
    ensures Total([8, 8, 4, 1]) == 21
    ensures Unpack(s, [8, 8, 4, 1]) == [FromBytes(s[0..8]), FromBytes(s[8..16]), FromBytes(s[16..20]), FromBytes(s[20..21])]
  {
    FieldsUpTo16(s);
    UnpackSnoc(s, [8, 8], 4);
    UnpackSnoc(s, [8, 8, 4], 1);
    assert [8, 8] + [4] == [8, 8, 4] && [8, 8, 4] + [1] == [8, 8, 4, 1];
  }

  lemma FieldsUpTo25(s: seq<Byte>)
    requires |s| >= 31
    ensures Total([8, 8, 4, 1, 4]) == 25
    ensures Unpack(s, [8, 8, 4, 1, 4]) == [FromBytes(s[0..8]), FromBytes(s[8..16]), FromBytes(s[16..20]), FromBytes(s[20..21]),
                                           FromBytes(s[21..25])]
  {
    FieldsUpTo21(s);
    UnpackSnoc(s, [8, 8, 4, 1], 4);
    assert [8, 8, 4, 1] + [4] == [8, 8, 4, 1, 4];
  }

  lemma FieldsUpTo27(s: seq<Byte>)
    requires |s| >= 31
    ensures Total([8, 8, 4, 1, 4, 2]) == 27
    ensures Unpack(s, [8, 8, 4, 1, 4, 2]) == [FromBytes(s[0..8]), FromBytes(s[8..16]), FromBytes(s[16..20]), FromBytes(s[20..21]),
                                              FromBytes(s[21..25]), FromBytes(s[25..27])]
  {
    FieldsUpTo25(s);
    UnpackSnoc(s, [8, 8, 4, 1, 4], 2);
    assert [8, 8, 4, 1, 4] + [2] == [8, 8, 4, 1, 4, 2];
  }

  /** The seven fields before the checksum, by offset. */
  lemma FieldsByOffset(s: seq<Byte>)
    requires |s| >= 31
    ensures Total(BEFORE_CRC) == 31
    ensures Unpack(s, BEFORE_CRC) == [FromBytes(s[0..8]), FromBytes(s[8..16]), FromBytes(s[16..20]), FromBytes(s[20..21]),
                                      FromBytes(s[21..25]), FromBytes(s[25..27]), FromBytes(s[27..31])]
  {
    FieldsUpTo27(s);
    UnpackSnoc(s, [8, 8, 4, 1, 4, 2], 4);
    assert [8, 8, 4, 1, 4, 2] + [4] == BEFORE_CRC;
  }

  function PayloadLength(b: seq<Byte>): nat
    requires |b| >= 35
  {
    FromBytes(b[27..31])
  }

  /** The record these bytes would be, checksum aside. */
  function RecordAt(b: seq<Byte>): Record
    requires |b| >= 35 && 35 + PayloadLength(b) <= |b|
  {
    Record(FromBytes(b[0..8]), FromBytes(b[8..16]), FromBytes(b[16..20]), FromBytes(b[20..21]), FromBytes(b[21..25]), FromBytes(b[25..27]),
           b[35..35 + PayloadLength(b)])
  }

  lemma ZeroBytes()
    ensures ToBytes(0, 4) == [0, 0, 0, 0]
  {
    assert ToBytes(0, 0) == [] && ToBytes(0, 1) == [0] && ToBytes(0, 2) == [0, 0] && ToBytes(0, 3) == [0, 0, 0];
  }

  lemma HeaderWithoutCrc(b: seq<Byte>)
    requires |b| >= 35 && 35 + PayloadLength(b) <= |b|
    ensures HeaderBytes(RecordAt(b), 0) == b[..31] + [0, 0, 0, 0]
  {
    var r, fields := RecordAt(b), Unpack(b, BEFORE_CRC);
    BeforeCrcAddsUp();
    FieldsByOffset(b);
    UnpackedPacks(b, BEFORE_CRC);
    assert HeaderFields(r, 0) == fields + [0];
    PackSnoc(fields, BEFORE_CRC, 0, 4);
    ZeroBytes();
  }

  /** A record is read from the front of some bytes exactly when its header and payload are there and the
      stored checksum is the one of the header, with zeroes in place of the checksum, and the payload;
      then it is what the bytes at the fixed offsets say. */
  lemma RecordIsReadExactlyWhen(b: seq<Byte>, sum: Checksum)
    ensures ReadRecord(b, sum).Some? <==>
      && |b| >= 35 && 35 + PayloadLength(b) <= |b|
      && FromBytes(b[31..35]) == sum(b[..31] + [0, 0, 0, 0] + b[35..35 + PayloadLength(b)]) % 0x1_0000_0000
    ensures ReadRecord(b, sum).Some? ==> ReadRecord(b, sum) == Some(RecordAt(b))
  {
    if |b| >= 35 {
      WidthsAddUp();
      BeforeCrcAddsUp();
      FieldsByOffset(b);
      UnpackSnoc(b, BEFORE_CRC, 4);
      if 35 + PayloadLength(b) <= |b| {
        HeaderWithoutCrc(b);
        FourBytes();
      }
    }
  }

  lemma FourBytes()
    ensures Pow256(4) == 0x1_0000_0000
  {
    assert Pow256(0) == 1 && Pow256(1) == 256 && Pow256(2) == 0x1_0000 && Pow256(3) == 0x100_0000;
  }

  /** A written record has its fields at the fixed offsets. */
  lemma WrittenFieldsAre(r: Record, sum: Checksum)
    requires Fits(r)
    ensures var b := Encode(r, sum);
      && FromBytes(b[0..8]) == r.lsn && FromBytes(b[8..16]) == r.prevLsn && FromBytes(b[16..20]) == r.txId
      && FromBytes(b[20..21]) == r.kind && FromBytes(b[21..25]) == r.pageId && FromBytes(b[25..27]) == r.slotId
      && FromBytes(b[27..31]) == |r.payload| && b[35..] == r.payload
      && FromBytes(b[31..35]) == sum(b[..31] + [0, 0, 0, 0] + r.payload) % 0x1_0000_0000
  {
    var b := Encode(r, sum);
    ReadWhole(r, [], sum);
    assert b + [] == b;
    RecordIsReadExactlyWhen(b, sum);
    assert RecordAt(b) == r;
    assert b[35..] == b[35..35 + PayloadLength(b)];
  }
}
