/** The log as bytes (src/wal.cpp, lines 36-101 and 247-291): records are appended with a checksum
    and found again by a forward scan that stops at the first incomplete or damaged one. */
module WalLog {
  import opened StorageTypes

  /** crc32, left open: every theorem holds for any checksum of the bytes it is given. */
  type Checksum = seq<Byte> -> nat

  const HEADER_SIZE := 35

  /** WALRecordHeader without payload_len and crc, which append_record computes. */
  datatype Record = Record(lsn: nat, prevLsn: nat, txId: nat, kind: nat, pageId: nat, slotId: nat, payload: seq<Byte>)

  function Pow256(n: nat): (p: nat)
    ensures p > 0
  {
    if n == 0 then 1 else 256 * Pow256(n - 1)
  }

  /** Little-endian fields of a fixed width, truncated as a C++ conversion truncates. */
  function ToBytes(v: nat, width: nat): (s: seq<Byte>)
    ensures |s| == width
  {
    if width == 0 then [] else [v % 256] + ToBytes(v / 256, width - 1)
  }

  function FromBytes(s: seq<Byte>): nat {
    if s == [] then 0 else s[0] + 256 * FromBytes(s[1..])
  }

  lemma {:induction false} FieldRoundTrip(v: nat, width: nat)
    requires v < Pow256(width)
    ensures FromBytes(ToBytes(v, width)) == v
  {
    if width > 0 {
      FieldRoundTrip(v / 256, width - 1);
      assert ToBytes(v, width)[1..] == ToBytes(v / 256, width - 1);
    }
  }

  /** The packed header: lsn, prev_lsn, tx_id, type, page_id, slot_id, payload_len, crc. */
  const WIDTHS: seq<nat> := [8, 8, 4, 1, 4, 2, 4, 4]

  function HeaderFields(r: Record, crc: nat): (f: seq<nat>)
    ensures |f| == |WIDTHS|
  {
    [r.lsn, r.prevLsn, r.txId, r.kind, r.pageId, r.slotId, |r.payload|, crc]
  }

  function Total(widths: seq<nat>): nat {
    if widths == [] then 0 else widths[0] + Total(widths[1..])
  }

  function Pack(values: seq<nat>, widths: seq<nat>): (s: seq<Byte>)
    requires |values| == |widths|
    ensures |s| == Total(widths)
  {
    if values == [] then [] else ToBytes(values[0], widths[0]) + Pack(values[1..], widths[1..])
  }

  function Unpack(s: seq<Byte>, widths: seq<nat>): (values: seq<nat>)
    requires |s| >= Total(widths)
    ensures |values| == |widths|
  {
    if widths == [] then [] else [FromBytes(s[..widths[0]])] + Unpack(s[widths[0]..], widths[1..])
  }

  ghost predicate AllFit(values: seq<nat>, widths: seq<nat>) {
    |values| == |widths| && forall i :: 0 <= i < |values| ==> values[i] < Pow256(widths[i])
  }

  lemma AllFitTail(values: seq<nat>, widths: seq<nat>)
    requires AllFit(values, widths) && values != []
    ensures AllFit(values[1..], widths[1..])
  {
  }

  lemma FirstField(field: seq<Byte>, others: seq<Byte>, rest: seq<Byte>)
    ensures (field + others + rest)[..|field|] == field && (field + others + rest)[|field|..] == others + rest
  {
  }

  lemma {:induction false} PackRoundTrip(values: seq<nat>, widths: seq<nat>, rest: seq<Byte>)
    requires AllFit(values, widths)
    ensures Unpack(Pack(values, widths) + rest, widths) == values
  {
    if values != [] {
      FieldRoundTrip(values[0], widths[0]);
      FirstField(ToBytes(values[0], widths[0]), Pack(values[1..], widths[1..]), rest);
      AllFitTail(values, widths);
      PackRoundTrip(values[1..], widths[1..], rest);
    }
  }

  lemma WidthsAddUp()
    ensures Total(WIDTHS) == HEADER_SIZE
  {
    assert Total([2, 4, 4]) == 10;
    assert Total([1, 4, 2, 4, 4]) == 15;
    assert Total([8, 4, 1, 4, 2, 4, 4]) == 27;
  }

  /** Every field fits its width in the packed header. */
  ghost predicate Fits(r: Record) {
    AllFit(HeaderFields(r, 0), WIDTHS)
  }

  function HeaderBytes(r: Record, crc: nat): (h: seq<Byte>)
    ensures |h| == HEADER_SIZE
  {
    WidthsAddUp();
    Pack(HeaderFields(r, crc), WIDTHS)
  }

  function CrcOf(r: Record, sum: Checksum): nat {
    sum(HeaderBytes(r, 0) + r.payload) % Pow256(4)
  }

  function Size(r: Record): nat {
    HEADER_SIZE + |r.payload|
  }

  function Encode(r: Record, sum: Checksum): (b: seq<Byte>)
    ensures |b| == Size(r)
  {
    HeaderBytes(r, CrcOf(r, sum)) + r.payload
  }

  type Writer = Record -> seq<Byte>

  function RecordWriter(sum: Checksum): Writer {
    r => Encode(r, sum)
  }

  /** The file append_record leaves: every record written behind the one before. */
  function EncodeAll(rs: seq<Record>, write: Writer): seq<Byte> {
    if rs == [] then [] else EncodeAll(rs[..|rs| - 1], write) + write(rs[|rs| - 1])
  }

  // ---- the scan -----------------------------------------------------------

  /** The record at the front of `b`, if all of it is there and its checksum agrees. */
  function ReadRecord(b: seq<Byte>, sum: Checksum): (found: Option<Record>)
    ensures found.Some? ==> Size(found.value) <= |b|
  {
    if |b| < HEADER_SIZE then None
    else
      WidthsAddUp();
      var h := Unpack(b, WIDTHS);
      if HEADER_SIZE + h[6] > |b| then None
      else
        var r := Record(h[0], h[1], h[2], h[3], h[4], h[5], b[HEADER_SIZE..HEADER_SIZE + h[6]]);
        if h[7] != CrcOf(r, sum) then None else Some(r)
  }

  type Reader = seq<Byte> -> Option<Record>

  function RecordReader(sum: Checksum): Reader {
    b => ReadRecord(b, sum)
  }

  /** Pass 1 of recover, as a list of records: read until a record is missing, torn or damaged. */
  function Scan(b: seq<Byte>, read: Reader): seq<Record>
    decreases |b|
  {
    match read(b)
    case None => []
    case Some(r) => if Size(r) > |b| then [] else [r] + Scan(b[Size(r)..], read)
  }

  method ScanLog(b: seq<Byte>, read: Reader) returns (rs: seq<Record>)
    ensures rs == Scan(b, read)
  {
    rs := [];
    var offset := 0;
    while true
      invariant offset <= |b| && rs + Scan(b[offset..], read) == Scan(b, read)
      decreases |b| - offset
    {
      var tail := b[offset..];
      var next := read(tail);
      if next.None? || offset + Size(next.value) > |b| {
        return;
      }
      assert tail[Size(next.value)..] == b[offset + Size(next.value)..];
      rs := rs + [next.value];
      offset := offset + Size(next.value);
    }
  }

  // ---- round trip ---------------------------------------------------------

  lemma HeaderReadsBack(r: Record, crc: nat, rest: seq<Byte>)
    requires Fits(r) && crc < Pow256(4)
    ensures Total(WIDTHS) == HEADER_SIZE && Unpack(HeaderBytes(r, crc) + rest, WIDTHS) == HeaderFields(r, crc)
  {
    WidthsAddUp();
    forall i | 0 <= i < |WIDTHS| ensures HeaderFields(r, crc)[i] < Pow256(WIDTHS[i]) {
      assert HeaderFields(r, 0)[i] < Pow256(WIDTHS[i]);
    }
    PackRoundTrip(HeaderFields(r, crc), WIDTHS, rest);
  }

  /** An encoded record is read back, whatever follows it. */
  lemma ReadWhole(r: Record, rest: seq<Byte>, sum: Checksum)
    requires Fits(r)
    ensures ReadRecord(Encode(r, sum) + rest, sum) == Some(r)
  {
    var b := Encode(r, sum) + rest;
    assert b == HeaderBytes(r, CrcOf(r, sum)) + (r.payload + rest);
    HeaderReadsBack(r, CrcOf(r, sum), r.payload + rest);
    assert b[HEADER_SIZE..HEADER_SIZE + |r.payload|] == r.payload;
  }

  /** A record cut short is not read, wherever the cut falls. */
  lemma ReadTorn(r: Record, cut: nat, sum: Checksum)
    requires Fits(r) && cut < Size(r)
    ensures ReadRecord(Encode(r, sum)[..cut], sum) == None
  {
    if cut >= HEADER_SIZE {
      var b := Encode(r, sum)[..cut];
      assert b == HeaderBytes(r, CrcOf(r, sum)) + r.payload[..cut - HEADER_SIZE];
      HeaderReadsBack(r, CrcOf(r, sum), r.payload[..cut - HEADER_SIZE]);
    }
  }

  lemma {:induction false} EncodeAllCons(rs: seq<Record>, write: Writer)
    requires rs != []
    ensures EncodeAll(rs, write) == write(rs[0]) + EncodeAll(rs[1..], write)
    decreases |rs|
  {
    var n := |rs| - 1;
    if n > 0 {
      EncodeAllCons(rs[..n], write);
      assert rs[..n][1..] == rs[1..][..n - 1];
      assert rs[1..][n - 1] == rs[n];
    } else {
      assert rs[..n] == [] && rs[1..] == [];
    }
  }

  /** `read` finds what `write` wrote, and nothing in a record cut short. */
  ghost predicate Reads(read: Reader, write: Writer) {
    && (forall r :: |write(r)| == Size(r))
    && (forall r, rest :: Fits(r) ==> read(write(r) + rest) == Some(r))
    && (forall r, cut :: Fits(r) && 0 <= cut < Size(r) ==> read(write(r)[..cut]) == None)
    && read([]) == None
  }

  lemma RecordReaderReads(sum: Checksum)
    ensures Reads(RecordReader(sum), RecordWriter(sum))
  {
    forall r, rest | Fits(r) ensures ReadRecord(Encode(r, sum) + rest, sum) == Some(r) {
      ReadWhole(r, rest, sum);
    }
    forall r, cut | Fits(r) && 0 <= cut < Size(r) ensures ReadRecord(Encode(r, sum)[..cut], sum) == None {
      ReadTorn(r, cut, sum);
    }
  }

  lemma ScanWhole(r: Record, rest: seq<Byte>, read: Reader, write: Writer)
    requires Reads(read, write) && Fits(r)
    ensures Scan(write(r) + rest, read) == [r] + Scan(rest, read)
  {
    assert read(write(r) + rest) == Some(r);
    assert (write(r) + rest)[Size(r)..] == rest;
  }

  lemma ScanTorn(r: Record, cut: nat, read: Reader, write: Writer)
    requires Reads(read, write) && Fits(r) && cut < Size(r)
    ensures Scan(write(r)[..cut], read) == []
  {
    assert read(write(r)[..cut]) == None;
  }

  lemma CutInside(a: seq<Byte>, b: seq<Byte>, cut: nat)
    requires cut <= |a| + |b|
    ensures (a + b)[..cut] == if cut < |a| then a[..cut] else a + b[..cut - |a|]
  {
  }

  /** The first k records are what lies wholly before the cut. */
  ghost predicate CutsBehind(rs: seq<Record>, k: nat, cut: nat, write: Writer) {
    && k <= |rs| && |EncodeAll(rs[..k], write)| <= cut <= |EncodeAll(rs, write)|
    && (k == |rs| || cut < |EncodeAll(rs[..k + 1], write)|)
  }

  lemma CutInFirst(rs: seq<Record>, cut: nat, read: Reader, write: Writer)
    requires Reads(read, write) && CutsBehind(rs, 0, cut, write) && (rs == [] || Fits(rs[0]))
    ensures Scan(EncodeAll(rs, write)[..cut], read) == []
  {
    if rs == [] {
      assert EncodeAll(rs, write)[..cut] == [] && read([]) == None;
    } else {
      EncodeAllCons(rs, write);
      CutInside(write(rs[0]), EncodeAll(rs[1..], write), cut);
      assert rs[..1] == [rs[0]];
      ScanTorn(rs[0], cut, read, write);
    }
  }

  lemma CutBehindFirst(rs: seq<Record>, k: nat, cut: nat, write: Writer)
    requires 0 < k && CutsBehind(rs, k, cut, write) && |write(rs[0])| == Size(rs[0])
    ensures Size(rs[0]) <= cut && CutsBehind(rs[1..], k - 1, cut - Size(rs[0]), write)
    ensures EncodeAll(rs, write)[..cut] == write(rs[0]) + EncodeAll(rs[1..], write)[..cut - Size(rs[0])]
  {
    EncodeAllCons(rs, write);
    PrefixTail(rs, k, write);
    if k < |rs| {
      PrefixTail(rs, k + 1, write);
    }
    CutInside(write(rs[0]), EncodeAll(rs[1..], write), cut);
  }

  ghost predicate AllRecordsFit(rs: seq<Record>) {
    forall i :: 0 <= i < |rs| ==> Fits(rs[i])
  }

  lemma TailFits(rs: seq<Record>)
    requires AllRecordsFit(rs) && rs != []
    ensures Fits(rs[0]) && AllRecordsFit(rs[1..])
  {
  }

  lemma PrefixCons(rs: seq<Record>, k: nat)
    requires 0 < k <= |rs|
    ensures rs[..k] == [rs[0]] + rs[1..][..k - 1]
  {
  }

  lemma {:induction false} CutRoundTrip(rs: seq<Record>, k: nat, cut: nat, read: Reader, write: Writer)
    requires AllRecordsFit(rs) && Reads(read, write) && CutsBehind(rs, k, cut, write)
    ensures Scan(EncodeAll(rs, write)[..cut], read) == rs[..k]
    decreases k
  {
    if k == 0 {
      CutInFirst(rs, cut, read, write);
    } else {
      TailFits(rs);
      CutBehindFirst(rs, k, cut, write);
      CutRoundTrip(rs[1..], k - 1, cut - Size(rs[0]), read, write);
      ScanWhole(rs[0], EncodeAll(rs[1..], write)[..cut - Size(rs[0])], read, write);
      PrefixCons(rs, k);
    }
  }

  lemma PrefixTail(rs: seq<Record>, k: nat, write: Writer)
    requires 0 < k <= |rs|
    ensures EncodeAll(rs[..k], write) == write(rs[0]) + EncodeAll(rs[1..][..k - 1], write)
  {
    EncodeAllCons(rs[..k], write);
    assert rs[..k][1..] == rs[1..][..k - 1];
  }

  /** Cut the log at any byte. Scanning it returns, in order, exactly the k records that lie wholly
      before the cut. */
  lemma LogRoundTrip(rs: seq<Record>, cut: nat, k: nat, sum: Checksum)
    requires (forall r :: r in rs ==> Fits(r)) && k <= |rs|
    requires |EncodeAll(rs[..k], RecordWriter(sum))| <= cut <= |EncodeAll(rs, RecordWriter(sum))|
    requires k == |rs| || cut < |EncodeAll(rs[..k + 1], RecordWriter(sum))|
    ensures Scan(EncodeAll(rs, RecordWriter(sum))[..cut], RecordReader(sum)) == rs[..k]
  {
    RecordReaderReads(sum);
    CutRoundTrip(rs, k, cut, RecordReader(sum), RecordWriter(sum));
  }
}
