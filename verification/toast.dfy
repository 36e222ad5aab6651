/** TOAST (src/toast.cpp): a value of more than 2048 bytes is cut into chunks that are stored as
    tuples of slotted pages and indexed in memory; reopening rebuilds the index from the pages. */
module Toast {
  import opened StorageTypes
  import opened SlottedPage
  import opened WalLog

  const CHUNK_SIZE: nat := 2048
  const INLINE_LIMIT: nat := 2048
  const CHUNK_HEADER: nat := 16

  datatype ChunkKey = ChunkKey(id: nat, seqNo: nat)

  datatype Value = Inline(bytes: seq<Byte>) | OutOfLine(id: nat, rawSize: nat, chunkCount: nat)

  // ---- cutting and joining ------------------------------------------------

  function Count(len: nat): nat {
    (len + CHUNK_SIZE - 1) / CHUNK_SIZE
  }

  /** Where chunk s starts in a value of this length. */
  function Cut(len: nat, s: nat): nat {
    if CHUNK_SIZE * s < len then CHUNK_SIZE * s else len
  }

  function Chunk(data: seq<Byte>, s: nat): (c: seq<Byte>)
    ensures |c| <= CHUNK_SIZE
  {
    data[Cut(|data|, s)..Cut(|data|, s + 1)]
  }

  type Chunks = map<ChunkKey, seq<Byte>>

  /** fetch's loop: None stands for the exception about a missing chunk. */
  function Join(chunks: Chunks, id: nat, n: nat): Option<seq<Byte>> {
    if n == 0 then Some([])
    else
      var front := Join(chunks, id, n - 1);
      if front.Some? && ChunkKey(id, n - 1) in chunks then Some(front.value + chunks[ChunkKey(id, n - 1)]) else None
  }

  /** The first n chunks of `data` are stored under `id`. */
  ghost predicate Holds(chunks: Chunks, id: nat, data: seq<Byte>, n: nat) {
    forall s: nat :: s < n ==> ChunkKey(id, s) in chunks && chunks[ChunkKey(id, s)] == Chunk(data, s)
  }

  lemma {:induction false} JoinGluesPrefix(chunks: Chunks, id: nat, data: seq<Byte>, n: nat)
    requires Holds(chunks, id, data, n)
    ensures Join(chunks, id, n) == Some(data[..Cut(|data|, n)])
  {
    if n > 0 {
      JoinGluesPrefix(chunks, id, data, n - 1);
      var a, b := Cut(|data|, n - 1), Cut(|data|, n);
      assert a <= b && data[..a] + data[a..b] == data[..b];
      assert chunks[ChunkKey(id, n - 1)] == data[a..b];
    }
  }

  /** Cutting and joining give back the value, whatever its length. */
  lemma JoinRestores(chunks: Chunks, id: nat, data: seq<Byte>)
    requires Holds(chunks, id, data, Count(|data|))
    ensures Join(chunks, id, Count(|data|)) == Some(data)
  {
    JoinGluesPrefix(chunks, id, data, Count(|data|));
    assert data[..|data|] == data;
  }

  /** One lost chunk is enough to make a value unreadable. */
  lemma {:induction false} JoinNeedsAll(chunks: Chunks, id: nat, n: nat)
    ensures Join(chunks, id, n).Some? <==> forall s: nat :: s < n ==> ChunkKey(id, s) in chunks
  {
    if n > 0 {
      JoinNeedsAll(chunks, id, n - 1);
    }
  }

  // ---- a chunk as a tuple -------------------------------------------------

  const CHUNK_WIDTHS: seq<nat> := [8, 4, 4]

  lemma ChunkWidths()
    ensures Total(CHUNK_WIDTHS) == CHUNK_HEADER
  {
    assert Total([4, 4]) == 8;
  }

  function TupleOf(key: ChunkKey, data: seq<Byte>): (t: seq<Byte>)
    ensures |t| == CHUNK_HEADER + |data|
  {
    ChunkWidths();
    Pack([key.id, key.seqNo, |data|], CHUNK_WIDTHS) + data
  }

  function Parse(t: seq<Byte>): Option<(ChunkKey, seq<Byte>)> {
    ChunkWidths();
    if |t| < CHUNK_HEADER then None
    else
      var h := Unpack(t, CHUNK_WIDTHS);
      if CHUNK_HEADER + h[2] <= |t| then Some((ChunkKey(h[0], h[1]), t[CHUNK_HEADER..CHUNK_HEADER + h[2]])) else None
  }

  ghost predicate KeyFits(key: ChunkKey) {
    key.id < Pow256(8) && key.seqNo < Pow256(4)
  }

  lemma ChunkSizeFits()
    ensures CHUNK_SIZE < Pow256(4)
  {
    assert Pow256(2) == 65536;
    assert Pow256(3) >= 65536;
  }

  lemma TupleRoundTrip(key: ChunkKey, data: seq<Byte>)
    requires KeyFits(key) && |data| <= CHUNK_SIZE
    ensures Parse(TupleOf(key, data)) == Some((key, data))
  {
    ChunkWidths();
    ChunkSizeFits();
    var fields := [key.id, key.seqNo, |data|];
    assert AllFit(fields, CHUNK_WIDTHS);
    PackRoundTrip(fields, CHUNK_WIDTHS, data);
    var t := TupleOf(key, data);
    assert Unpack(t, CHUNK_WIDTHS) == fields;
    assert t[CHUNK_HEADER..CHUNK_HEADER + |data|] == data;
  }

  // ---- scanning the pages -------------------------------------------------

  datatype Index = Index(chunks: Chunks, next: nat)

  const EMPTY := Index(map[], 1)

  function Added(ix: Index, key: ChunkKey, data: seq<Byte>): Index {
    Index(ix.chunks[key := data], if key.id >= ix.next then key.id + 1 else ix.next)
  }

  function Note(ix: Index, slot: Slot<seq<Byte>>): Index {
    if slot.Normal? && Parse(slot.item).Some? then Added(ix, Parse(slot.item).value.0, Parse(slot.item).value.1) else ix
  }

  function NoteAll(ix: Index, v: View): Index {
    if v == [] then ix else Note(NoteAll(ix, v[..|v| - 1]), v[|v| - 1])
  }

  /** Well formed, and nothing to recycle: TOAST only appends. */
  ghost predicate GoodPage(b: seq<Byte>) {
    WellFormed(b) && forall i :: 0 <= i < |ViewOf(b)| ==> !ViewOf(b)[i].Unused?
  }

  ghost predicate GoodPages(pages: seq<seq<Byte>>) {
    forall p :: 0 <= p < |pages| ==> GoodPage(pages[p])
  }

  /** What scan_existing_pages finds. */
  ghost function IndexOf(pages: seq<seq<Byte>>): Index
    requires GoodPages(pages)
  {
    if pages == [] then EMPTY else NoteAll(IndexOf(pages[..|pages| - 1]), ViewOf(pages[|pages| - 1]))
  }

  lemma IndexOfSnoc(pages: seq<seq<Byte>>, b: seq<Byte>)
    requires GoodPages(pages) && GoodPage(b)
    ensures GoodPages(pages + [b]) && IndexOf(pages + [b]) == NoteAll(IndexOf(pages), ViewOf(b))
  {
    assert (pages + [b])[..|pages|] == pages;
  }

  /** One more tuple at the end of the last page is one more chunk found. */
  lemma AppendedTuple(front: seq<seq<Byte>>, b: seq<Byte>, c: seq<Byte>, t: seq<Byte>)
    requires GoodPages(front) && GoodPage(b) && WellFormed(c) && ViewOf(c) == ViewOf(b) + [Normal(t)]
    ensures GoodPage(c) && GoodPages(front + [b]) && GoodPages(front + [c])
    ensures IndexOf(front + [c]) == Note(IndexOf(front + [b]), Normal(t))
  {
    IndexOfSnoc(front, b);
    IndexOfSnoc(front, c);
    assert ViewOf(c)[..|ViewOf(c)| - 1] == ViewOf(b);
  }

  lemma {:induction false} NothingToRecycle(v: View)
    requires forall i :: 0 <= i < |v| ==> !v[i].Unused?
    ensures FirstUnused(v) == |v|
  {
  }

  /** The tuple at slot index i, as get_tuple_ptr finds it. */
  function TupleAt(b: seq<Byte>, i: nat): (t: Option<seq<Byte>>)
    requires WellFormed(b) && i < NumSlots(b)
    ensures t == if ViewOf(b)[i].Normal? then Some(ViewOf(b)[i].item) else None
  {
    var it := Items(b)[i];
    if it.flags == NORMAL then Some(b[it.offset..it.offset + it.len]) else None
  }

  // ---- the manager --------------------------------------------------------

  /** Every value ever stored out of line is whole on the pages, under ids below the next one. */
  ghost predicate Stored(ix: Index, values: map<nat, seq<Byte>>) {
    && 0 < ix.next
    && (forall key :: key in ix.chunks ==> key.id < ix.next)
    && (forall id :: id in values ==> id < ix.next && |values[id]| > INLINE_LIMIT && Holds(ix.chunks, id, values[id], Count(|values[id]|)))
  }

  function Without(chunks: Chunks, deleted: set<nat>): Chunks {
    map key | key in chunks && key.id !in deleted :: chunks[key]
  }

  /** Chunk n of a value under the fresh id joins the n chunks before it. */
  lemma OneMoreChunk(ix: Index, values: map<nat, seq<Byte>>, id: nat, data: seq<Byte>, n: nat)
    requires Stored(ix, values) && id !in values && Holds(ix.chunks, id, data, n) && (id == ix.next || id + 1 == ix.next)
    ensures Stored(Added(ix, ChunkKey(id, n), Chunk(data, n)), values)
    ensures Holds(Added(ix, ChunkKey(id, n), Chunk(data, n)).chunks, id, data, n + 1)
    ensures Added(ix, ChunkKey(id, n), Chunk(data, n)).next == id + 1
  {
    var after := Added(ix, ChunkKey(id, n), Chunk(data, n));
    forall v | v in values ensures Holds(after.chunks, v, values[v], Count(|values[v]|)) {
      assert Holds(ix.chunks, v, values[v], Count(|values[v]|));
    }
  }

  /** A stored value reads back whole exactly as long as its id has not been deleted. */
  lemma StoredValueJoins(ix: Index, values: map<nat, seq<Byte>>, deleted: set<nat>, id: nat)
    requires Stored(ix, values) && id in values
    ensures Join(Without(ix.chunks, deleted), id, Count(|values[id]|)) == if id in deleted then None else Some(values[id])
  {
    var live, data := Without(ix.chunks, deleted), values[id];
    if id in deleted {
      assert ChunkKey(id, 0) !in live;
      JoinNeedsAll(live, id, Count(|data|));
    } else {
      assert Holds(ix.chunks, id, data, Count(|data|));
      assert Holds(live, id, data, Count(|data|));
      JoinRestores(live, id, data);
    }
  }

  lemma WithoutAdded(ix: Index, deleted: set<nat>, key: ChunkKey, data: seq<Byte>)
    requires key.id !in deleted
    ensures Without(Added(ix, key, data).chunks, deleted) == Without(ix.chunks, deleted)[key := data]
  {
  }

  lemma ManyChunks(len: nat, s: nat)
    requires s < Count(len) && len < Pow256(4)
    ensures s < Pow256(4)
  {
  }

  lemma OneMoreValue(ix: Index, values: map<nat, seq<Byte>>, id: nat, data: seq<Byte>)
    requires Stored(ix, values) && ix.next == id + 1 && |data| > INLINE_LIMIT && Holds(ix.chunks, id, data, Count(|data|))
    ensures Stored(ix, values[id := data])
  {
  }

  /** Reopening rebuilds the very index that was lost exactly when no stored value had been deleted:
      the chunks of a deleted one come back. */
  lemma ReopenedIndexExactlyWhen(ix: Index, values: map<nat, seq<Byte>>, deleted: set<nat>)
    requires Stored(ix, values) && forall id :: id in deleted ==> id in values
    ensures Without(ix.chunks, deleted) == ix.chunks <==> deleted == {}
  {
    if id :| id in deleted {
      assert Holds(ix.chunks, id, values[id], Count(|values[id]|));
      assert ChunkKey(id, 0) in ix.chunks && ChunkKey(id, 0) !in Without(ix.chunks, deleted);
    }
  }

  // ---- strings ------------------------------------------------------------

  /** store_string adds the terminator. */
  function Terminated(text: seq<Byte>): seq<Byte> {
    text + [0]
  }

  /** fetch_string reads up to the first NUL. */
  function UntilNul(bytes: seq<Byte>): seq<Byte> {
    if bytes == [] || bytes[0] == 0 then [] else [bytes[0]] + UntilNul(bytes[1..])
  }

  /** A string survives store_string and fetch_string exactly when it has no NUL inside. */
  lemma {:induction false} StringRoundTripExactlyWhen(text: seq<Byte>)
    ensures UntilNul(Terminated(text)) == text <==> forall i :: 0 <= i < |text| ==> text[i] != 0
  {
    if text != [] {
      StringRoundTripExactlyWhen(text[1..]);
      assert Terminated(text)[1..] == Terminated(text[1..]);
      assert text == [text[0]] + text[1..];
      if text[0] != 0 && UntilNul(Terminated(text)) == text {
        assert UntilNul(Terminated(text[1..])) == text[1..];
      }
    }
  }

  class ToastManager {
    var pages: seq<seq<Byte>>
    var chunkIndex: Chunks
    var nextToastId: nat
    ghost var values: map<nat, seq<Byte>>  // every value ever stored out of line
    ghost var deleted: set<nat>            // ids deleted since the file was opened

    ghost predicate Valid()
      reads this
    {
      && pages != [] && GoodPages(pages)
      && Stored(IndexOf(pages), values)
      && nextToastId == IndexOf(pages).next
      && chunkIndex == Without(IndexOf(pages).chunks, deleted)
      && (forall id :: id in deleted ==> id < nextToastId)
    }

    /** Opens a file: the index and the next id come from its pages, and every value stored there,
        deleted or not, is found again. */
    constructor (file: seq<seq<Byte>>, ghost stored: map<nat, seq<Byte>>)
      requires GoodPages(file) && Stored(IndexOf(file), stored)
      ensures Valid() && values == stored && deleted == {}
      ensures chunkIndex == IndexOf(file).chunks && nextToastId == IndexOf(file).next
    {
      pages, chunkIndex, nextToastId := file, map[], 1;
      values, deleted := stored, {};
      new;
      if |file| == 0 {
        var blank := new Page();
        pages := [blank.data[..]];
        IndexOfSnoc([], pages[0]);
        assert [] + [pages[0]] == pages;
      } else {
        ScanExistingPages();
      }
    }

    method ScanExistingPages()
      requires GoodPages(pages) && Index(chunkIndex, nextToastId) == EMPTY
      modifies this`chunkIndex, this`nextToastId
      ensures Index(chunkIndex, nextToastId) == IndexOf(pages)
    {
      for p := 0 to |pages|
        invariant Index(chunkIndex, nextToastId) == IndexOf(pages[..p])
      {
        assert GoodPage(pages[p]);
        ScanPage(pages[p]);
        assert pages[..p + 1] == pages[..p] + [pages[p]];
        IndexOfSnoc(pages[..p], pages[p]);
      }
      assert pages[..|pages|] == pages;
    }

    method ScanPage(b: seq<Byte>)
      requires GoodPage(b)
      modifies this`chunkIndex, this`nextToastId
      ensures Index(chunkIndex, nextToastId) == NoteAll(Index(old(chunkIndex), old(nextToastId)), ViewOf(b))
    {
      ghost var v := ViewOf(b);
      for i := 0 to NumSlots(b)
        invariant Index(chunkIndex, nextToastId) == NoteAll(Index(old(chunkIndex), old(nextToastId)), v[..i])
      {
        assert v[..i + 1][..i] == v[..i];
        var t := TupleAt(b, i);
        if t.Some? {
          var c := Parse(t.value);
          if c.Some? {
            chunkIndex := chunkIndex[c.value.0 := c.value.1];
            nextToastId := if c.value.0.id >= nextToastId then c.value.0.id + 1 else nextToastId;
          }
        }
      }
      assert v[..|v|] == v;
    }

    /** Appends the chunk to the last page, or to a new one when it is full. */
    method FlushChunkToPage(key: ChunkKey, data: seq<Byte>)
      requires pages != [] && GoodPages(pages) && KeyFits(key) && |data| <= CHUNK_SIZE
      modifies this`pages
      ensures pages != [] && GoodPages(pages) && IndexOf(pages) == Added(old(IndexOf(pages)), key, data)
      ensures var room := old(Room(pages[|pages| - 1]));
        |pages| == old(|pages|) + if CHUNK_HEADER + |data| + LP_SIZE <= room then 0 else 1
    {
      var t := TupleOf(key, data);
      TupleRoundTrip(key, data);
      ghost var front, b := pages[..|pages| - 1], pages[|pages| - 1];
      assert pages == front + [b] && GoodPage(b);
      var ok, changed := InsertInto(pages[|pages| - 1], t);
      if ok {
        AppendedTuple(front, b, changed, t);
        pages := pages[|pages| - 1 := changed];
        assert pages == front + [changed];
        return;
      }
      var newPage := new Page();
      var blank := newPage.data[..];
      ok, changed := InsertInto(blank, t);
      AppendedTuple(pages, blank, changed, t);
      IndexOfSnoc(pages, blank);
      pages := pages + [changed];
    }

    /** insert_tuple on a page without recyclable slots. */
    static method InsertInto(b: seq<Byte>, t: seq<Byte>) returns (ok: bool, c: seq<Byte>)
      requires GoodPage(b) && 0 < |t| <= PAGE_SIZE
      ensures ok <==> |t| + LP_SIZE <= Room(b)
      ensures ok ==> WellFormed(c) && ViewOf(c) == ViewOf(b) + [Normal(t)]
    {
      NothingToRecycle(ViewOf(b));
      var page := new Page.FromBytes(b);
      var slot := page.InsertTuple(t);
      ok, c := slot != INVALID_SLOT_ID, page.data[..];
      assert ok ==> Pad(ViewOf(b), slot)[slot - 1 := Normal(t)] == ViewOf(b) + [Normal(t)];
    }

    method Store(data: seq<Byte>) returns (v: Value)
      requires Valid() && nextToastId < Pow256(8) && |data| < Pow256(4)
      modifies this
      ensures Valid() && deleted == old(deleted)
      ensures |data| <= INLINE_LIMIT ==> v == Inline(data) && unchanged(this)
      ensures |data| > INLINE_LIMIT ==>
        v == OutOfLine(old(nextToastId), |data|, Count(|data|)) && nextToastId == v.id + 1 && values == old(values)[v.id := data]
    {
      if |data| <= INLINE_LIMIT {
        return Inline(data);
      }
      var id := nextToastId;
      nextToastId := nextToastId + 1;
      var n := Count(|data|);
      for s := 0 to n
        invariant Storing(id, data, s) && values == old(values) && deleted == old(deleted)
      {
        StoreChunk(id, data, s);
      }
      OneMoreValue(IndexOf(pages), values, id, data);
      values := values[id := data];
      v := OutOfLine(id, |data|, n);
    }

    /** The first s chunks of `data` are in. */
    ghost predicate Storing(id: nat, data: seq<Byte>, s: nat)
      reads this
    {
      && pages != [] && GoodPages(pages) && Stored(IndexOf(pages), values) && nextToastId == id + 1
      && id !in values && (forall d :: d in deleted ==> d < id)
      && IndexOf(pages).next == (if s == 0 then id else id + 1) && Holds(IndexOf(pages).chunks, id, data, s)
      && chunkIndex == Without(IndexOf(pages).chunks, deleted)
    }

    method StoreChunk(id: nat, data: seq<Byte>, s: nat)
      requires Storing(id, data, s) && s < Count(|data|) && id < Pow256(8) && |data| < Pow256(4)
      modifies this`pages, this`chunkIndex
      ensures Storing(id, data, s + 1)
    {
      OneMoreChunk(IndexOf(pages), values, id, data, s);
      WithoutAdded(IndexOf(pages), deleted, ChunkKey(id, s), Chunk(data, s));
      ManyChunks(|data|, s);
      chunkIndex := chunkIndex[ChunkKey(id, s) := Chunk(data, s)];
      FlushChunkToPage(ChunkKey(id, s), Chunk(data, s));
    }

    /** None stands for the exception about a missing chunk. */
    method Fetch(v: Value) returns (r: Option<seq<Byte>>)
      requires Valid()
      ensures v.Inline? ==> r == Some(v.bytes)
      ensures v.OutOfLine? ==> r == Join(chunkIndex, v.id, v.chunkCount)
      ensures v.OutOfLine? && v.id in values && v.chunkCount == Count(|values[v.id]|) ==>
        r == if v.id in deleted then None else Some(values[v.id])
    {
      if v.Inline? {
        return Some(v.bytes);
      }
      if v.id in values && v.chunkCount == Count(|values[v.id]|) {
        StoredValueJoins(IndexOf(pages), values, deleted, v.id);
      }
      var bytes: seq<Byte> := [];
      for s := 0 to v.chunkCount
        invariant Join(chunkIndex, v.id, s) == Some(bytes)
      {
        if ChunkKey(v.id, s) !in chunkIndex {
          JoinNeedsAll(chunkIndex, v.id, v.chunkCount);
          return None;
        }
        bytes := bytes + chunkIndex[ChunkKey(v.id, s)];
      }
      return Some(bytes);
    }

    /** The chunks leave the index only; the pages keep them, so that reopening finds them again. */
    method DeleteValue(id: nat) returns (erased: bool)
      requires Valid()
      modifies this
      ensures Valid() && pages == old(pages) && values == old(values) && nextToastId == old(nextToastId)
      ensures erased <==> exists key :: key in old(chunkIndex) && key.id == id
      ensures deleted == if erased then old(deleted) + {id} else old(deleted)
    {
      erased := exists key :: key in chunkIndex && key.id == id;
      chunkIndex := map key | key in chunkIndex && key.id != id :: chunkIndex[key];
      if erased {
        deleted := deleted + {id};
      }
    }
  }
}
