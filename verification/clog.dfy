/** The commit log (src/clog.cpp): two status bits for each transaction on disk pages, reached through
    a small least-recently-used cache. It must look like a map from transactions to statuses. */
module CommitLog {
  import opened StorageTypes
  import opened Transactions

  const PAGE_SIZE: nat := 8192
  const TXS_PER_BYTE: nat := 4
  const TXS_PER_PAGE: nat := 32768

  type PageBytes = seq<bv8>

  // ---- two bits in a byte -------------------------------------------------

  function Bits(status: Status): bv8 {
    match status
    case InProgress => 0
    case Committed => 1
    case Aborted => 2
    case SubCommitted => 3
  }

  function FromBits(bits: bv8): Status {
    if bits == 0 then InProgress else if bits == 1 then Committed else if bits == 2 then Aborted else SubCommitted
  }

  /** Shifts by bit_shift, two bits a slot. */
  function ShiftLeft(b: bv8, slot: nat): bv8
    requires slot < TXS_PER_BYTE
  {
    if slot == 0 then b else if slot == 1 then b << 2 else if slot == 2 then b << 4 else b << 6
  }

  function ShiftRight(b: bv8, slot: nat): bv8
    requires slot < TXS_PER_BYTE
  {
    if slot == 0 then b else if slot == 1 then b >> 2 else if slot == 2 then b >> 4 else b >> 6
  }

  function GetBits(b: bv8, slot: nat): bv8
    requires slot < TXS_PER_BYTE
  {
    ShiftRight(b, slot) & 3
  }

  /** Clear the two bits, then set them. */
  function SetBits(b: bv8, slot: nat, bits: bv8): bv8
    requires slot < TXS_PER_BYTE
  {
    (b & !ShiftLeft(3, slot)) | ShiftLeft(bits, slot)
  }

  lemma SetBitsOnly(b: bv8, slot: nat, bits: bv8, k: nat)
    requires slot < TXS_PER_BYTE && k < TXS_PER_BYTE && bits <= 3
    ensures GetBits(SetBits(b, slot, bits), k) == if k == slot then bits else GetBits(b, k)
  {
    if slot == 0 {
    } else if slot == 1 {
    }
  }

  /** Setting one transaction's bits is read back and leaves its three neighbours alone. */
  lemma SetStatusBits(b: bv8, slot: nat, status: Status, k: nat)
    requires slot < TXS_PER_BYTE && k < TXS_PER_BYTE
    ensures FromBits(GetBits(SetBits(b, slot, Bits(status)), k)) == if k == slot then status else FromBits(GetBits(b, k))
  {
    SetBitsOnly(b, slot, Bits(status), k);
  }

  // ---- a transaction's place ----------------------------------------------

  function PageOf(tx: TxId): PageId {
    tx / TXS_PER_PAGE
  }

  function ByteOf(tx: TxId): (offset: nat)
    ensures offset < PAGE_SIZE
  {
    tx % TXS_PER_PAGE / TXS_PER_BYTE
  }

  function SlotOf(tx: TxId): (slot: nat)
    ensures slot < TXS_PER_BYTE
  {
    tx % TXS_PER_PAGE % TXS_PER_BYTE
  }

  /** No two transactions share their bits. */
  lemma PlacesDiffer(a: TxId, b: TxId)
    requires a != b
    ensures PageOf(a) != PageOf(b) || ByteOf(a) != ByteOf(b) || SlotOf(a) != SlotOf(b)
  {
  }

  /** The status recorded in the given pages. */
  function StatusIn(pages: seq<PageBytes>, tx: TxId): Status
    requires forall p :: 0 <= p < |pages| ==> |pages[p]| == PAGE_SIZE
  {
    if PageOf(tx) >= |pages| then InProgress else FromBits(GetBits(pages[PageOf(tx)][ByteOf(tx)], SlotOf(tx)))
  }

  ghost predicate WholePages(pages: seq<PageBytes>) {
    forall p :: 0 <= p < |pages| ==> |pages[p]| == PAGE_SIZE
  }

  function Lookup(statuses: map<TxId, Status>, tx: TxId): Status {
    if tx in statuses then statuses[tx] else InProgress
  }

  /** The pages record exactly these statuses. */
  ghost predicate Records(pages: seq<PageBytes>, statuses: map<TxId, Status>) {
    WholePages(pages) && forall tx: TxId :: StatusIn(pages, tx) == Lookup(statuses, tx)
  }

  function Blank(): (page: PageBytes)
    ensures |page| == PAGE_SIZE && forall k :: 0 <= k < PAGE_SIZE ==> page[k] == 0
  {
    seq(PAGE_SIZE, _ => 0)
  }

  lemma BlankPageChangesNothing(pages: seq<PageBytes>, statuses: map<TxId, Status>)
    requires Records(pages, statuses)
    ensures Records(pages + [Blank()], statuses)
  {
    var after := pages + [Blank()];
    assert WholePages(after);
    forall tx: TxId ensures StatusIn(after, tx) == Lookup(statuses, tx) {
      assert StatusIn(pages, tx) == Lookup(statuses, tx);
      if PageOf(tx) == |pages| {
        BlankBits(SlotOf(tx));
      }
    }
  }

  lemma BlankBits(slot: nat)
    requires slot < TXS_PER_BYTE
    ensures FromBits(GetBits(0, slot)) == InProgress
  {
  }

  function SetInPage(page: PageBytes, tx: TxId, status: Status): (after: PageBytes)
    requires |page| == PAGE_SIZE
    ensures |after| == PAGE_SIZE
  {
    page[ByteOf(tx) := SetBits(page[ByteOf(tx)], SlotOf(tx), Bits(status))]
  }

  /** Writing one status changes the answer for that transaction and for no other. */
  lemma SetInPageSetsOne(pages: seq<PageBytes>, statuses: map<TxId, Status>, tx: TxId, status: Status)
    requires Records(pages, statuses) && PageOf(tx) < |pages|
    ensures Records(pages[PageOf(tx) := SetInPage(pages[PageOf(tx)], tx, status)], statuses[tx := status])
  {
    var after := pages[PageOf(tx) := SetInPage(pages[PageOf(tx)], tx, status)];
    assert WholePages(after);
    forall x: TxId ensures StatusIn(after, x) == Lookup(statuses[tx := status], x) {
      assert StatusIn(pages, x) == Lookup(statuses, x);
      if x != tx {
        PlacesDiffer(x, tx);
      }
      if PageOf(x) == PageOf(tx) && ByteOf(x) == ByteOf(tx) {
        SetStatusBits(pages[PageOf(x)][ByteOf(x)], SlotOf(tx), status, SlotOf(x));
      }
    }
  }

  // ---- the cache ----------------------------------------------------------

  datatype Frame = Frame(page: PageId, valid: bool, dirty: bool, lru: nat, data: PageBytes)

  const EMPTY_FRAME := Frame(0, false, false, 0, [])

  ghost predicate Resident(frames: seq<Frame>, p: PageId) {
    exists i :: 0 <= i < |frames| && frames[i].valid && frames[i].page == p
  }

  ghost predicate FrameOk(fr: Frame, disk: seq<PageBytes>, contents: seq<PageBytes>)
    requires |disk| == |contents|
  {
    fr.valid ==>
      fr.page < |disk| && fr.data == contents[fr.page] && (!fr.dirty ==> fr.data == disk[fr.page])
  }

  /** Frames and disk together hold `contents`: every page is in at most one frame, and what is in
      no frame is on disk. */
  ghost predicate Caches(frames: seq<Frame>, disk: seq<PageBytes>, contents: seq<PageBytes>) {
    && |disk| == |contents|
    && (forall i :: 0 <= i < |frames| ==> FrameOk(frames[i], disk, contents))
    && (forall i, j :: 0 <= i < j < |frames| && frames[i].valid && frames[j].valid ==> frames[i].page != frames[j].page)
    && (forall p :: 0 <= p < |disk| ==> Resident(frames, p) || contents[p] == disk[p])
  }

  /** An unused frame, or the least recently used one when all are in use. */
  ghost predicate IsVictim(frames: seq<Frame>, victim: nat) {
    && victim < |frames|
    && (frames[victim].valid ==> forall i :: 0 <= i < |frames| ==> frames[i].valid && frames[victim].lru <= frames[i].lru)
  }

  /** Frame i gets an equal page, or loses none: who is resident does not change. */
  lemma SameResidents(frames: seq<Frame>, after: seq<Frame>)
    requires |after| == |frames|
    requires forall i :: 0 <= i < |frames| ==> after[i].valid == frames[i].valid && after[i].page == frames[i].page
    ensures forall p: PageId :: Resident(after, p) == Resident(frames, p)
  {
    forall p: PageId ensures Resident(after, p) == Resident(frames, p) {
      if Resident(frames, p) {
        var i :| 0 <= i < |frames| && frames[i].valid && frames[i].page == p;
        assert after[i].valid && after[i].page == p;
      }
      if Resident(after, p) {
        var i :| 0 <= i < |after| && after[i].valid && after[i].page == p;
        assert frames[i].valid && frames[i].page == p;
      }
    }
  }

  lemma WriteBackKeeps(frames: seq<Frame>, disk: seq<PageBytes>, contents: seq<PageBytes>, i: nat)
    requires Caches(frames, disk, contents) && i < |frames| && frames[i].valid
    ensures Caches(frames[i := frames[i].(dirty := false)], disk[frames[i].page := frames[i].data], contents)
  {
    assert FrameOk(frames[i], disk, contents);
    var after, disk' := frames[i := frames[i].(dirty := false)], disk[frames[i].page := frames[i].data];
    SameResidents(frames, after);
    forall k | 0 <= k < |after| ensures FrameOk(after[k], disk', contents) {
      assert FrameOk(frames[k], disk, contents);
    }
  }

  lemma TouchKeeps(frames: seq<Frame>, disk: seq<PageBytes>, contents: seq<PageBytes>, i: nat, lru: nat)
    requires Caches(frames, disk, contents) && i < |frames|
    ensures Caches(frames[i := frames[i].(lru := lru)], disk, contents)
  {
    var after := frames[i := frames[i].(lru := lru)];
    SameResidents(frames, after);
    forall k | 0 <= k < |after| ensures FrameOk(after[k], disk, contents) {
      assert FrameOk(frames[k], disk, contents);
    }
  }

  /** A clean frame may be given to another page. */
  lemma LoadKeeps(frames: seq<Frame>, disk: seq<PageBytes>, contents: seq<PageBytes>, i: nat, p: PageId, lru: nat)
    requires Caches(frames, disk, contents) && i < |frames| && (frames[i].valid ==> !frames[i].dirty)
    requires p < |disk| && !Resident(frames, p)
    ensures Caches(frames[i := Frame(p, true, false, lru, disk[p])], disk, contents)
  {
    var after := frames[i := Frame(p, true, false, lru, disk[p])];
    assert FrameOk(frames[i], disk, contents);
    forall k | 0 <= k < |after| ensures FrameOk(after[k], disk, contents) {
      assert FrameOk(frames[k], disk, contents);
    }
    assert forall k :: 0 <= k < |frames| && frames[k].valid ==> frames[k].page != p;
    forall q | 0 <= q < |disk| ensures Resident(after, q) || contents[q] == disk[q] {
      if Resident(frames, q) {
        var k :| 0 <= k < |frames| && frames[k].valid && frames[k].page == q;
        if k != i {
          assert after[k].valid && after[k].page == q;
        }
      }
    }
  }

  lemma ModifyKeeps(frames: seq<Frame>, disk: seq<PageBytes>, contents: seq<PageBytes>, i: nat, data: PageBytes)
    requires Caches(frames, disk, contents) && i < |frames| && frames[i].valid
    ensures frames[i].page < |contents|
    ensures Caches(frames[i := frames[i].(dirty := true, data := data)], disk, contents[frames[i].page := data])
  {
    assert FrameOk(frames[i], disk, contents);
    var p := frames[i].page;
    var after, contents' := frames[i := frames[i].(dirty := true, data := data)], contents[p := data];
    SameResidents(frames, after);
    forall k | 0 <= k < |after| ensures FrameOk(after[k], disk, contents') {
      assert FrameOk(frames[k], disk, contents);
    }
    assert Resident(frames, p);
  }

  lemma ExtendKeeps(frames: seq<Frame>, disk: seq<PageBytes>, contents: seq<PageBytes>, page: PageBytes)
    requires Caches(frames, disk, contents)
    ensures Caches(frames, disk + [page], contents + [page])
  {
    forall k | 0 <= k < |frames| ensures FrameOk(frames[k], disk + [page], contents + [page]) {
      assert FrameOk(frames[k], disk, contents);
    }
  }

  lemma AllCleanMeansOnDisk(frames: seq<Frame>, disk: seq<PageBytes>, contents: seq<PageBytes>)
    requires Caches(frames, disk, contents) && forall i :: 0 <= i < |frames| ==> !(frames[i].valid && frames[i].dirty)
    ensures disk == contents
  {
    forall p | 0 <= p < |disk| ensures disk[p] == contents[p] {
      if Resident(frames, p) {
        var i :| 0 <= i < |frames| && frames[i].valid && frames[i].page == p;
        assert FrameOk(frames[i], disk, contents);
      }
    }
  }

  // ---- the manager --------------------------------------------------------

  class CLogManager {
    var disk: seq<PageBytes>
    var frames: seq<Frame>
    var lruClock: nat
    ghost var contents: seq<PageBytes>       // the pages frames and disk stand for
    ghost var statuses: map<TxId, Status>    // the last status set for each transaction

    ghost predicate Valid()
      reads this
    {
      |frames| > 0 && Caches(frames, disk, contents) && Records(contents, statuses)
    }

    /** Opens the file a previous manager left behind, with any number of buffers. */
    constructor (pages: seq<PageBytes>, numBuffers: nat, ghost recorded: map<TxId, Status>)
      requires Records(pages, recorded)
      ensures Valid() && statuses == recorded
    {
      frames := seq(if numBuffers > 1 then numBuffers else 1, _ => EMPTY_FRAME);
      lruClock, statuses := 0, recorded;
      disk, contents := pages, pages;
      new;
      if |disk| == 0 {
        BlankPageChangesNothing(pages, recorded);
        disk, contents := disk + [Blank()], contents + [Blank()];
      }
    }

    method EnsurePageExists(p: PageId)
      requires Valid()
      modifies this`disk, this`contents
      ensures Valid() && |disk| == if p < old(|disk|) then old(|disk|) else p + 1
    {
      while |disk| <= p
        invariant Valid() && old(|disk|) <= |disk| && (|disk| <= p + 1 || |disk| == old(|disk|))
        decreases p - |disk|
      {
        ExtendKeeps(frames, disk, contents, Blank());
        BlankPageChangesNothing(contents, statuses);
        disk, contents := disk + [Blank()], contents + [Blank()];
      }
    }

    /** An unused frame if there is one, else the least recently used. */
    method VictimFrame() returns (victim: nat)
      requires |frames| > 0
      ensures IsVictim(frames, victim)
    {
      for i := 0 to |frames|
        invariant forall k :: 0 <= k < i ==> frames[k].valid
      {
        if !frames[i].valid {
          return i;
        }
      }
      victim := 0;
      for i := 0 to |frames|
        invariant victim < |frames| && forall k :: 0 <= k < i ==> frames[victim].lru <= frames[k].lru
      {
        if frames[i].lru < frames[victim].lru {
          victim := i;
        }
      }
    }

    method WriteFrame(i: nat)
      requires Valid() && i < |frames|
      modifies this`disk, this`frames
      ensures Valid() && |disk| == old(|disk|) && |frames| == old(|frames|)
      ensures frames == old(frames)[i := old(frames)[i].(dirty := frames[i].dirty)]
      ensures frames[i].valid ==> !frames[i].dirty
    {
      if frames[i].valid && frames[i].dirty {
        WriteBackKeeps(frames, disk, contents, i);
        assert FrameOk(frames[i], disk, contents);
        disk := disk[frames[i].page := frames[i].data];
        frames := frames[i := frames[i].(dirty := false)];
      }
    }

    method FindOrLoadFrame(p: PageId) returns (f: nat)
      requires Valid() && p < |disk|
      modifies this`disk, this`frames, this`lruClock
      ensures Valid() && |disk| == old(|disk|) && f < |frames| == old(|frames|)
      ensures frames[f].valid && frames[f].page == p && lruClock == old(lruClock) + 1 == frames[f].lru
      ensures frames == old(frames)[f := frames[f]]
      ensures if Resident(old(frames), p) then disk == old(disk) && frames[f] == old(frames)[f].(lru := lruClock)
              else IsVictim(old(frames), f)
    {
      for i := 0 to |frames|
        invariant forall k :: 0 <= k < i ==> !(frames[k].valid && frames[k].page == p)
        invariant unchanged(this)
      {
        if frames[i].valid && frames[i].page == p {
          lruClock := lruClock + 1;
          TouchKeeps(frames, disk, contents, i, lruClock);
          frames := frames[i := frames[i].(lru := lruClock)];
          return i;
        }
      }
      f := VictimFrame();
      WriteFrame(f);
      lruClock := lruClock + 1;
      LoadKeeps(frames, disk, contents, f, p, lruClock);
      frames := frames[f := Frame(p, true, false, lruClock, disk[p])];
    }

    /** Afterwards tx has the new status and every other transaction the status it had. */
    method SetStatus(tx: TxId, status: Status)
      requires Valid()
      modifies this
      ensures Valid() && statuses == old(statuses)[tx := status] && |frames| == old(|frames|)
    {
      EnsurePageExists(PageOf(tx));
      var f := FindOrLoadFrame(PageOf(tx));
      assert FrameOk(frames[f], disk, contents);
      SetInPageSetsOne(contents, statuses, tx, status);
      var data := SetInPage(frames[f].data, tx, status);
      ModifyKeeps(frames, disk, contents, f, data);
      frames := frames[f := frames[f].(dirty := true, data := data)];
      contents := contents[PageOf(tx) := data];
      statuses := statuses[tx := status];
    }

    /** The last status set, IN_PROGRESS if there was none, whatever has been evicted since. */
    method GetStatus(tx: TxId) returns (status: Status)
      requires Valid()
      modifies this`disk, this`frames, this`lruClock
      ensures Valid() && |frames| == old(|frames|) && status == Lookup(statuses, tx)
    {
      assert StatusIn(contents, tx) == Lookup(statuses, tx);
      if PageOf(tx) >= |disk| {
        return InProgress;
      }
      var f := FindOrLoadFrame(PageOf(tx));
      assert FrameOk(frames[f], disk, contents);
      status := FromBits(GetBits(frames[f].data[ByteOf(tx)], SlotOf(tx)));
    }

    /** Afterwards the file alone records every status, ready to be opened again. */
    method Flush()
      requires Valid()
      modifies this`disk, this`frames
      ensures Valid() && Records(disk, statuses)
    {
      for i := 0 to |frames|
        invariant Valid() && |frames| == old(|frames|)
        invariant forall k :: 0 <= k < i ==> !(frames[k].valid && frames[k].dirty)
      {
        WriteFrame(i);
      }
      AllCleanMeansOnDisk(frames, disk, contents);
    }
  }
}
