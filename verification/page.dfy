/** The slotted page at byte level (src/page.cpp, include/pg/page.h): an 18-byte header, four-byte
    line pointers growing up from it, tuple bytes growing down from the end. */
module SlottedPage {
  import opened StorageTypes

  const PAGE_SIZE := 8192
  const HEADER := 18
  const LP_SIZE := 4
  const LOWER_AT := 12
  const UPPER_AT := 14

  type View = seq<Slot<seq<Byte>>>

  datatype ItemFlags = UNUSED | NORMAL | REDIRECT | DEAD

  /** A decoded line pointer. */
  datatype Item = Item(flags: ItemFlags, offset: nat, len: nat)

  function Code(f: ItemFlags): nat {
    match f case UNUSED => 0 case NORMAL => 1 case REDIRECT => 2 case DEAD => 3
  }

  function FlagOf(code: nat): ItemFlags {
    if code == 0 then UNUSED else if code == 1 then NORMAL else if code == 2 then REDIRECT else DEAD
  }

  // ---- reading the bytes --------------------------------------------------

  function U16(b: seq<Byte>, o: nat): nat
    requires o + 2 <= |b|
  {
    b[o] as int + 256 * b[o + 1] as int
  }

  function Lower(b: seq<Byte>): nat
    requires |b| == PAGE_SIZE
  {
    U16(b, LOWER_AT)
  }

  function Upper(b: seq<Byte>): nat
    requires |b| == PAGE_SIZE
  {
    U16(b, UPPER_AT)
  }

  function LpOffset(i: nat): nat {
    HEADER + LP_SIZE * i
  }

  /** The second word holds the length in its lower 14 bits and the flags in its upper two. */
  function ItemAt(b: seq<Byte>, i: nat): Item
    requires |b| == PAGE_SIZE && LpOffset(i + 1) <= PAGE_SIZE
  {
    var lenFlags := U16(b, LpOffset(i) + 2);
    Item(FlagOf(lenFlags / 0x4000), U16(b, LpOffset(i)), lenFlags % 0x4000)
  }

  function NumSlots(b: seq<Byte>): nat
    requires |b| == PAGE_SIZE
  {
    if Lower(b) < HEADER then 0 else (Lower(b) - HEADER) / LP_SIZE
  }

  ghost predicate HeaderOk(b: seq<Byte>) {
    |b| == PAGE_SIZE && HEADER <= Lower(b) <= Upper(b) <= PAGE_SIZE && LpOffset(NumSlots(b)) == Lower(b)
  }

  function Items(b: seq<Byte>): (r: seq<Item>)
    requires HeaderOk(b)
    ensures |r| == NumSlots(b)
  {
    seq(NumSlots(b), i requires 0 <= i < NumSlots(b) => ItemAt(b, i))
  }

  // ---- well-formed pages and what they mean -------------------------------

  ghost predicate InBounds(it: Item, upper: nat) {
    it.flags == NORMAL ==> upper <= it.offset && 0 < it.len && it.offset + it.len <= PAGE_SIZE
  }

  ghost predicate Disjoint(p: Item, q: Item) {
    p.flags == NORMAL && q.flags == NORMAL ==> p.offset + p.len <= q.offset || q.offset + q.len <= p.offset
  }

  /** NORMAL byte ranges lie above pd_upper, inside the page, and do not overlap. */
  ghost predicate LayoutOk(items: seq<Item>, upper: nat) {
    && (forall i :: 0 <= i < |items| ==> InBounds(items[i], upper))
    && (forall i, j :: 0 <= i < j < |items| ==> Disjoint(items[i], items[j]))
  }

  ghost predicate WellFormed(b: seq<Byte>) {
    HeaderOk(b) && LayoutOk(Items(b), Upper(b))
  }

  ghost function SlotOf(b: seq<Byte>, it: Item): Slot<seq<Byte>>
    requires |b| == PAGE_SIZE && InBounds(it, 0)
  {
    match it.flags
    case UNUSED => Unused
    case DEAD => Dead
    case REDIRECT => Redirect(it.offset)
    case NORMAL => Normal(b[it.offset..it.offset + it.len])
  }

  ghost function Slots(b: seq<Byte>, items: seq<Item>): (v: View)
    requires |b| == PAGE_SIZE && forall i :: 0 <= i < |items| ==> InBounds(items[i], 0)
    ensures |v| == |items|
  {
    seq(|items|, i requires 0 <= i < |items| => SlotOf(b, items[i]))
  }

  /** What a page holds, slot by slot, wherever the bytes are. */
  ghost function ViewOf(b: seq<Byte>): (v: View)
    requires WellFormed(b)
    ensures |v| == NumSlots(b)
  {
    Slots(b, Items(b))
  }

  function Room(b: seq<Byte>): int
    requires |b| == PAGE_SIZE
  {
    Upper(b) - Lower(b)
  }

  // ---- what the operations mean on views ----------------------------------

  function FirstUnused(v: View): (i: nat)
    ensures i <= |v| && (i < |v| ==> v[i].Unused?)
    ensures forall j :: 0 <= j < i ==> !v[j].Unused?
  {
    if v == [] || v[0].Unused? then 0 else 1 + FirstUnused(v[1..])
  }

  /** Bytes an insert of `len` needs: a recycled slot costs no line pointer. */
  function Need(v: View, len: nat): nat {
    if FirstUnused(v) < |v| then len else len + LP_SIZE
  }

  lemma NeedIs(v: View, len: nat)
    ensures Need(v, len) == if exists i :: 0 <= i < |v| && v[i].Unused? then len else len + 4
  {
    if i :| 0 <= i < |v| && v[i].Unused? {
      assert FirstUnused(v) <= i;
    }
  }

  function Pad(v: View, n: nat): (r: View)
    ensures |r| == if n > |v| then n else |v|
  {
    if n <= |v| then v else v + seq(n - |v|, _ => Unused)
  }

  /** A page header that Page::init never wrote, as on a page of zeroes. */
  predicate Unformatted(b: seq<Byte>) {
    |b| == PAGE_SIZE && Lower(b) == 0 && Upper(b) == 0
  }

  /** What insert_tuple_at does to a formatted page b, leaving c. */
  ghost predicate InsertedAt(b: seq<Byte>, c: seq<Byte>, slot: SlotId, bytes: seq<Byte>, ok: bool)
    requires WellFormed(b)
  {
    var v := ViewOf(b);
    && WellFormed(c)
    && (ok <==> CanInsertAt(v, Room(b), slot, |bytes|))
    && ViewOf(c) == (if ok then Pad(v, slot)[slot - 1 := Normal(bytes)] else Pad(v, NumSlots(c)))
    // repeating the call with the same arguments changes no byte
    && (1 <= slot <= |v| && v[slot - 1] == Normal(bytes) && bytes != [] ==> c == b)
  }

  function LiveBytes(v: View): nat {
    if v == [] then 0
    else LiveBytes(v[..|v| - 1]) + (if v[|v| - 1].Normal? then |v[|v| - 1].item| else 0)
  }

  // ---- placing a tuple ----------------------------------------------------

  lemma PlacedLayout(items: seq<Item>, items': seq<Item>, upper: nat, k: nat, len: nat)
    requires LayoutOk(items, upper) && 0 < len <= upper <= PAGE_SIZE && |items| <= |items'| && k < |items'|
    requires items'[k] == Item(NORMAL, upper - len, len)
    requires forall j :: 0 <= j < |items| && j != k ==> items'[j] == items[j]
    requires forall j :: |items| <= j < |items'| && j != k ==> items'[j].flags == UNUSED
    ensures LayoutOk(items', upper - len)
  {
    forall i, j | 0 <= i < j < |items'| ensures Disjoint(items'[i], items'[j]) {
      if i == k {
        assert j < |items| ==> InBounds(items[j], upper);
      } else if j == k {
        assert i < |items| ==> InBounds(items[i], upper);
      } else if j < |items| {
        assert Disjoint(items[i], items[j]);
      }
    }
    forall i | 0 <= i < |items'| ensures InBounds(items'[i], upper - len) {
      assert i < |items| ==> InBounds(items[i], upper);
    }
  }

  lemma SameBytesAbove(b: seq<Byte>, c: seq<Byte>, from: nat, lo: nat, hi: nat)
    requires |b| == |c| && from <= lo <= hi <= |b| && c[from..] == b[from..]
    ensures c[lo..hi] == b[lo..hi]
  {
    assert b[from..][lo - from..hi - from] == b[lo..hi];
    assert c[from..][lo - from..hi - from] == c[lo..hi];
  }

  /** `c` is `b` with `bytes` put just below the old tuples, under line pointer `k`; the line pointer
      array may have grown with UNUSED entries up to `n` slots. */
  ghost predicate PlacedAt(b: seq<Byte>, c: seq<Byte>, k: nat, n: nat, bytes: seq<Byte>) {
    && HeaderOk(b) && HeaderOk(c) && bytes != [] && NumSlots(b) <= n == NumSlots(c) && k < n
    && Upper(c) == Upper(b) - |bytes|
    && (forall j :: 0 <= j < NumSlots(b) && j != k ==> Items(c)[j] == Items(b)[j])
    && (forall j :: NumSlots(b) <= j < n && j != k ==> Items(c)[j].flags == UNUSED)
    && Items(c)[k] == Item(NORMAL, Upper(c), |bytes|)
    && c[Upper(c)..Upper(b)] == bytes
    && c[Upper(b)..] == b[Upper(b)..]
  }

  lemma PlacedView(b: seq<Byte>, c: seq<Byte>, k: nat, n: nat, bytes: seq<Byte>)
    requires WellFormed(b) && PlacedAt(b, c, k, n, bytes)
    ensures WellFormed(c) && ViewOf(c) == Pad(ViewOf(b), n)[k := Normal(bytes)]
  {
    PlacedLayout(Items(b), Items(c), Upper(b), k, |bytes|);
    var want := Pad(ViewOf(b), n)[k := Normal(bytes)];
    forall j | 0 <= j < n ensures ViewOf(c)[j] == want[j] {
      if j < NumSlots(b) && j != k {
        var it := Items(b)[j];
        assert InBounds(it, Upper(b));
        if it.flags == NORMAL {
          SameBytesAbove(b, c, Upper(b), it.offset, it.offset + it.len);
        }
      }
    }
  }

  /** The two words of line pointer i. */
  ghost predicate ItemWords(b: seq<Byte>, i: nat, it: Item) {
    && |b| == PAGE_SIZE && LpOffset(i + 1) <= PAGE_SIZE
    && U16(b, LpOffset(i)) == it.offset && U16(b, LpOffset(i) + 2) == it.len % 0x4000 + Code(it.flags) * 0x4000
  }

  lemma ItemReadsBack(b: seq<Byte>, i: nat, it: Item)
    requires ItemWords(b, i, it) && it.len < 0x4000
    ensures ItemAt(b, i) == it
  {
  }

  lemma ItemKept(b: seq<Byte>, c: seq<Byte>, j: nat)
    requires |b| == |c| == PAGE_SIZE && LpOffset(j + 1) <= PAGE_SIZE
    requires forall x :: LpOffset(j) <= x < LpOffset(j + 1) ==> c[x] == b[x]
    ensures ItemAt(c, j) == ItemAt(b, j)
  {
  }

  lemma ItemsAppended(b: seq<Byte>, c: seq<Byte>, it: Item)
    requires HeaderOk(b) && Room(b) >= LP_SIZE && ItemWords(c, NumSlots(b), it) && it.len < 0x4000
    requires Lower(c) == LpOffset(NumSlots(b) + 1) && Upper(c) == Upper(b)
    requires forall x :: HEADER <= x < Lower(b) ==> c[x] == b[x]
    ensures HeaderOk(c) && Items(c) == Items(b) + [it]
  {
    var n := NumSlots(b);
    assert NumSlots(c) == n + 1;
    ItemReadsBack(c, n, it);
    forall j | 0 <= j < n ensures ItemAt(c, j) == ItemAt(b, j) {
      ItemKept(b, c, j);
    }
  }

  lemma ItemsChanged(b: seq<Byte>, c: seq<Byte>, i: nat, it: Item)
    requires HeaderOk(b) && i < NumSlots(b) && ItemWords(c, i, it) && it.len < 0x4000
    requires Lower(c) == Lower(b) && Upper(c) == Upper(b)
    requires forall x :: HEADER <= x < Lower(b) && !(LpOffset(i) <= x < LpOffset(i + 1)) ==> c[x] == b[x]
    ensures HeaderOk(c) && Items(c) == Items(b)[i := it]
  {
    ItemReadsBack(c, i, it);
    forall j | 0 <= j < NumSlots(b) && j != i ensures ItemAt(c, j) == ItemAt(b, j) {
      ItemKept(b, c, j);
    }
  }

  // ---- the page in memory -------------------------------------------------

  /** The writers below touch a header word, one line pointer or tuple bytes, and nothing else. */
  class Page {
    const data: array<Byte>

    /** Page::init on fresh memory. */
    constructor ()
      ensures fresh(data) && data.Length == PAGE_SIZE
      ensures WellFormed(data[..]) && ViewOf(data[..]) == [] && Upper(data[..]) == PAGE_SIZE
    {
      data := new Byte[PAGE_SIZE](_ => 0);
      new;
      WriteU16(LOWER_AT, HEADER);
      WriteU16(UPPER_AT, PAGE_SIZE);
      WriteU16(16, PAGE_SIZE);
    }

    /** A page read from a file. */
    constructor FromBytes(bytes: seq<Byte>)
      requires |bytes| == PAGE_SIZE
      ensures fresh(data) && data.Length == PAGE_SIZE && data[..] == bytes
    {
      data := new Byte[PAGE_SIZE](i requires 0 <= i < PAGE_SIZE => bytes[i]);
      new;
      assert data[..] == bytes;
    }

    method WriteU16(o: nat, v: nat)
      requires data.Length == PAGE_SIZE && o + 2 <= PAGE_SIZE && v < 0x1_0000
      modifies data
      ensures U16(data[..], o) == v
      ensures forall k :: 0 <= k < PAGE_SIZE && k != o && k != o + 1 ==> data[k] == old(data[k])
    {
      data[o] := v % 256;
      data[o + 1] := v / 256;
    }

    method SetUpper(v: nat)
      requires data.Length == PAGE_SIZE && HeaderOk(data[..]) && Lower(data[..]) <= v <= PAGE_SIZE
      modifies data
      ensures HeaderOk(data[..]) && Upper(data[..]) == v && Items(data[..]) == old(Items(data[..]))
      ensures forall x :: HEADER <= x < PAGE_SIZE ==> data[x] == old(data[x])
    {
      WriteU16(UPPER_AT, v);
    }

    /** LinePointer::set on one entry. */
    method SetItem(i: nat, it: Item)
      requires data.Length == PAGE_SIZE && HeaderOk(data[..]) && i < NumSlots(data[..])
      requires it.offset < 0x1_0000 && it.len < 0x4000
      modifies data
      ensures HeaderOk(data[..]) && Upper(data[..]) == old(Upper(data[..]))
      ensures Items(data[..]) == old(Items(data[..]))[i := it]
      ensures forall x :: Lower(data[..]) <= x < PAGE_SIZE ==> data[x] == old(data[x])
    {
      ghost var b := data[..];
      WriteU16(LpOffset(i), it.offset);
      WriteU16(LpOffset(i) + 2, it.len % 0x4000 + Code(it.flags) * 0x4000);
      ItemsChanged(b, data[..], i, it);
    }

    /** Append a line pointer: set the entry at pd_lower and advance pd_lower past it. */
    method AppendItem(it: Item)
      requires data.Length == PAGE_SIZE && HeaderOk(data[..]) && Room(data[..]) >= LP_SIZE
      requires it.offset < 0x1_0000 && it.len < 0x4000
      modifies data
      ensures HeaderOk(data[..]) && Upper(data[..]) == old(Upper(data[..]))
      ensures Items(data[..]) == old(Items(data[..])) + [it]
      ensures forall x :: Lower(data[..]) <= x < PAGE_SIZE ==> data[x] == old(data[x])
    {
      ghost var b := data[..];
      var i := NumSlots(data[..]);
      WriteU16(LpOffset(i), it.offset);
      WriteU16(LpOffset(i) + 2, it.len % 0x4000 + Code(it.flags) * 0x4000);
      WriteU16(LOWER_AT, LpOffset(i + 1));
      ItemsAppended(b, data[..], it);
    }

    /** memcpy of a tuple to `at`, which lies above the line pointer array. */
    method CopyIn(at: nat, bytes: seq<Byte>)
      requires data.Length == PAGE_SIZE && HeaderOk(data[..])
      requires Lower(data[..]) <= at && at + |bytes| <= PAGE_SIZE
      modifies data
      ensures data[at..at + |bytes|] == bytes
      ensures forall x :: 0 <= x < at || at + |bytes| <= x < PAGE_SIZE ==> data[x] == old(data[x])
      ensures HeaderOk(data[..]) && Upper(data[..]) == old(Upper(data[..]))
      ensures Items(data[..]) == old(Items(data[..]))
    {
      for k := 0 to |bytes|
        invariant forall x :: 0 <= x < at ==> data[x] == old(data[x])
        invariant forall x :: 0 <= x < k ==> data[at + x] == bytes[x]
        invariant forall x :: at + k <= x < PAGE_SIZE ==> data[x] == old(data[x])
      {
        data[at + k] := bytes[k];
      }
    }

    /** Store `bytes` just below the old tuples and point line pointer `k` at them. */
    method Place(k: nat, bytes: seq<Byte>)
      requires data.Length == PAGE_SIZE && WellFormed(data[..]) && bytes != [] && |bytes| <= Room(data[..])
      requires k < NumSlots(data[..])
      modifies data
      ensures WellFormed(data[..]) && ViewOf(data[..]) == old(ViewOf(data[..]))[k := Normal(bytes)]
      ensures Upper(data[..]) == old(Upper(data[..])) - |bytes| && NumSlots(data[..]) == old(NumSlots(data[..]))
    {
      ghost var b := data[..];
      var newUpper := Upper(data[..]) - |bytes|;
      CopyIn(newUpper, bytes);
      SetItem(k, Item(NORMAL, newUpper, |bytes|));
      SetUpper(newUpper);
      assert data[newUpper..newUpper + |bytes|] == bytes;
      PlacedView(b, data[..], k, NumSlots(b), bytes);
    }

    /** The first UNUSED line pointer, or the number of slots. */
    method FindUnused() returns (i: nat)
      requires data.Length == PAGE_SIZE && WellFormed(data[..])
      ensures i == FirstUnused(ViewOf(data[..]))
    {
      ghost var v := ViewOf(data[..]);
      i := 0;
      while i < NumSlots(data[..]) && ItemAt(data[..], i).flags != UNUSED
        invariant i <= |v| && forall j :: 0 <= j < i ==> !v[j].Unused?
      {
        assert v[i] == SlotOf(data[..], Items(data[..])[i]);
        i := i + 1;
      }
      assert i < |v| ==> v[i] == SlotOf(data[..], Items(data[..])[i]);
    }

    /** Store `bytes` under a line pointer appended at pd_lower. */
    method PlaceNew(bytes: seq<Byte>)
      requires data.Length == PAGE_SIZE && WellFormed(data[..]) && bytes != [] && |bytes| + LP_SIZE <= Room(data[..])
      modifies data
      ensures WellFormed(data[..]) && ViewOf(data[..]) == old(ViewOf(data[..])) + [Normal(bytes)]
      ensures Room(data[..]) == old(Room(data[..])) - |bytes| - LP_SIZE
    {
      ghost var b := data[..];
      var newUpper := Upper(data[..]) - |bytes|;
      CopyIn(newUpper, bytes);
      AppendItem(Item(NORMAL, newUpper, |bytes|));
      SetUpper(newUpper);
      assert data[newUpper..newUpper + |bytes|] == bytes;
      PlacedView(b, data[..], NumSlots(b), NumSlots(b) + 1, bytes);
    }

    /** Page::insert_tuple: the first UNUSED slot is recycled, DEAD ones never are; otherwise a slot
        is appended. 0 means the page has no room. */
    method InsertTuple(bytes: seq<Byte>) returns (slot: SlotId)
      requires data.Length == PAGE_SIZE && WellFormed(data[..])
      modifies data
      ensures WellFormed(data[..])
      ensures var v, room := old(ViewOf(data[..])), old(Room(data[..]));
        if 0 < |bytes| <= PAGE_SIZE && Need(v, |bytes|) <= room then
          && slot == FirstUnused(v) + 1 && Room(data[..]) == room - Need(v, |bytes|)
          && ViewOf(data[..]) == Pad(v, slot)[slot - 1 := Normal(bytes)]
        else
          slot == INVALID_SLOT_ID && data[..] == old(data[..])
    {
      if |bytes| == 0 || |bytes| > PAGE_SIZE {
        return INVALID_SLOT_ID;
      }
      var i := FindUnused();
      if i < NumSlots(data[..]) {
        if Room(data[..]) < |bytes| {
          return INVALID_SLOT_ID;
        }
        Place(i, bytes);
        return i + 1;
      }
      if Room(data[..]) < |bytes| + LP_SIZE {
        return INVALID_SLOT_ID;
      }
      PlaceNew(bytes);
      return i + 1;
    }

    /** Page::set_line_pointer with a pointer that names no bytes, as VACUUM and undo use it. */
    method SetLinePointer(slot: SlotId, flags: ItemFlags, offset: nat) returns (ok: bool)
      requires data.Length == PAGE_SIZE && WellFormed(data[..]) && flags != NORMAL && offset < 0x1_0000
      modifies data
      ensures WellFormed(data[..]) && Room(data[..]) == old(Room(data[..]))
      ensures ok <==> 1 <= slot <= |old(ViewOf(data[..]))|
      ensures ViewOf(data[..]) == if !ok then old(ViewOf(data[..])) else old(ViewOf(data[..]))[slot - 1 :=
        if flags == UNUSED then Unused else if flags == DEAD then Dead else Redirect(offset)]
    {
      if slot == INVALID_SLOT_ID || slot > NumSlots(data[..]) {
        return false;
      }
      ghost var b := data[..];
      SetItem(slot - 1, Item(flags, offset, 0));
      UnnamedKeepsView(b, data[..], slot - 1, Item(flags, offset, 0));
      return true;
    }

    /** Lines 196-204: append UNUSED line pointers until `slot` exists, or space runs out. */
    method GrowTo(slot: SlotId) returns (ok: bool)
      requires data.Length == PAGE_SIZE && WellFormed(data[..])
      modifies data
      ensures WellFormed(data[..])
      ensures var v, room := old(ViewOf(data[..])), old(Room(data[..]));
        var n := NumSlots(data[..]);
        && n >= |v| && ViewOf(data[..]) == Pad(v, n) && Room(data[..]) == room - LP_SIZE * (n - |v|)
        && (if ok then n == |Pad(v, slot)| else n < slot && Room(data[..]) < LP_SIZE)
        && (slot <= |v| ==> data[..] == old(data[..]))
    {
      ghost var v := ViewOf(data[..]);
      while NumSlots(data[..]) < slot
        invariant WellFormed(data[..]) && ViewOf(data[..]) == Pad(v, NumSlots(data[..]))
        invariant |v| <= NumSlots(data[..]) <= |Pad(v, slot)|
        invariant Room(data[..]) == old(Room(data[..])) - LP_SIZE * (NumSlots(data[..]) - |v|)
        invariant slot <= |v| ==> data[..] == old(data[..])
        decreases slot - NumSlots(data[..])
      {
        if Room(data[..]) < LP_SIZE {
          return false;
        }
        ghost var b := data[..];
        AppendItem(Item(UNUSED, 0, 0));
        GrownView(b, data[..]);
        assert Pad(v, NumSlots(b)) + [Unused] == Pad(v, NumSlots(b) + 1);
      }
      return true;
    }

    /** Lines 207-211: a NORMAL tuple of the same length is overwritten where it lies. */
    method Overwrite(k: nat, bytes: seq<Byte>)
      requires data.Length == PAGE_SIZE && WellFormed(data[..]) && k < NumSlots(data[..])
      requires ItemAt(data[..], k).flags == NORMAL && ItemAt(data[..], k).len == |bytes|
      modifies data
      ensures WellFormed(data[..]) && ViewOf(data[..]) == old(ViewOf(data[..]))[k := Normal(bytes)]
      ensures old(ViewOf(data[..]))[k] == Normal(bytes) ==> data[..] == old(data[..])
      ensures Room(data[..]) == old(Room(data[..]))
    {
      ghost var b := data[..];
      var it := ItemAt(data[..], k);
      assert it == Items(data[..])[k];
      assert InBounds(it, Upper(data[..]));
      CopyIn(it.offset, bytes);
      OverwrittenView(b, data[..], k, bytes);
    }

    /** Page::insert_tuple_at, for redo: exactly this slot, growing the array if need be. A page that
        was never formatted refuses every tuple and stays as it is. */
    method InsertTupleAt(slot: SlotId, bytes: seq<Byte>) returns (ok: bool)
      requires data.Length == PAGE_SIZE && (WellFormed(data[..]) || Unformatted(data[..]))
      modifies data
      ensures old(Unformatted(data[..])) ==> !ok && data[..] == old(data[..])
      ensures old(WellFormed(data[..])) ==> InsertedAt(old(data[..]), data[..], slot, bytes, ok)
    {
      if |bytes| == 0 || slot == INVALID_SLOT_ID {
        return false;
      }
      if NumSlots(data[..]) < slot && Room(data[..]) < LP_SIZE {
        // the first test of the loop at line 197
        return false;
      }
      ok := InsertFormatted(slot, bytes);
    }

    method InsertFormatted(slot: SlotId, bytes: seq<Byte>) returns (ok: bool)
      requires data.Length == PAGE_SIZE && WellFormed(data[..])
      modifies data
      ensures WellFormed(data[..])
      ensures ok <==> CanInsertAt(old(ViewOf(data[..])), old(Room(data[..])), slot, |bytes|)
      ensures ok ==> ViewOf(data[..]) == Pad(old(ViewOf(data[..])), slot)[slot - 1 := Normal(bytes)]
      ensures !ok ==> ViewOf(data[..]) == Pad(old(ViewOf(data[..])), NumSlots(data[..]))
      // repeating the call with the same arguments changes no byte
      ensures 1 <= slot <= |old(ViewOf(data[..]))| && old(ViewOf(data[..]))[slot - 1] == Normal(bytes) && bytes != []
        ==> data[..] == old(data[..])
    {
      if |bytes| == 0 || slot == INVALID_SLOT_ID {
        return false;
      }
      ghost var v := ViewOf(data[..]);
      var grown := GrowTo(slot);
      if !grown {
        return false;
      }
      ok := PutAt(slot - 1, bytes);
    }

    /** Lines 206-221: an existing slot is overwritten in place or given fresh space. */
    method PutAt(k: nat, bytes: seq<Byte>) returns (ok: bool)
      requires data.Length == PAGE_SIZE && WellFormed(data[..]) && k < NumSlots(data[..]) && bytes != []
      modifies data
      ensures WellFormed(data[..])
      ensures var v := old(ViewOf(data[..]));
        && (ok <==> (v[k].Normal? && |v[k].item| == |bytes|) || |bytes| <= old(Room(data[..])))
        && (if ok then ViewOf(data[..]) == v[k := Normal(bytes)] else data[..] == old(data[..]))
        && (v[k] == Normal(bytes) ==> data[..] == old(data[..]))
    {
      var it := ItemAt(data[..], k);
      assert it == Items(data[..])[k];
      assert InBounds(it, Upper(data[..]));
      assert ViewOf(data[..])[k] == SlotOf(data[..], it);
      if it.flags == NORMAL && it.len == |bytes| {
        Overwrite(k, bytes);
        return true;
      }
      if Room(data[..]) < |bytes| {
        return false;
      }
      Place(k, bytes);
      return true;
    }

    /** Page::defragment: pack the NORMAL tuples against the end of the page, in slot order. */
    method Defragment()
      requires data.Length == PAGE_SIZE && WellFormed(data[..])
      modifies data
      ensures WellFormed(data[..]) && ViewOf(data[..]) == old(ViewOf(data[..]))
      ensures NumSlots(data[..]) == old(NumSlots(data[..]))
      ensures Upper(data[..]) == PAGE_SIZE - LiveBytes(ViewOf(data[..]))
    {
      ghost var b := data[..];
      var temp := data[..];
      var slots := NumSlots(data[..]);
      var currentUpper := PAGE_SIZE;
      for i := 0 to slots
        invariant Upper(data[..]) == Upper(b)
        invariant 0 <= currentUpper == PAGE_SIZE - LiveLength(Items(b), i)
        invariant Compacted(b, data[..], i, currentUpper)
      {
        RoomToCompact(b, i);
        currentUpper := CompactSlot(temp, i, Items(temp)[i], currentUpper);
      }
      LiveLengthFits(b, slots);
      ghost var c := data[..];
      SetUpper(currentUpper);
      CompactedDone(b, c, data[..], currentUpper);
    }

    /** Lines 130-134: copy a payload to its new place and repoint its line pointer. */
    method MoveTo(i: nat, at: nat, bytes: seq<Byte>)
      requires data.Length == PAGE_SIZE && HeaderOk(data[..]) && i < NumSlots(data[..])
      requires Lower(data[..]) <= at && at + |bytes| <= PAGE_SIZE
      modifies data
      ensures HeaderOk(data[..]) && Upper(data[..]) == old(Upper(data[..]))
      ensures Items(data[..]) == old(Items(data[..]))[i := Item(NORMAL, at, |bytes|)]
      ensures data[..][at..at + |bytes|] == bytes
      ensures forall x :: at + |bytes| <= x < PAGE_SIZE ==> data[..][x] == old(data[..])[x]
    {
      CopyIn(at, bytes);
      SetItem(i, Item(NORMAL, at, |bytes|));
      assert data[at..at + |bytes|] == bytes;
    }

    /** One iteration of the compaction loop; `temp` is the copy of the page made before it. */
    method CompactSlot(temp: seq<Byte>, i: nat, it: Item, currentUpper: nat) returns (newUpper: nat)
      requires data.Length == PAGE_SIZE && HeaderOk(temp) && i < NumSlots(temp) && it == Items(temp)[i]
      requires InBounds(it, 0) && Lower(temp) <= currentUpper <= PAGE_SIZE
      requires it.flags == NORMAL ==> Lower(temp) + it.len <= currentUpper
      requires Compacted(temp, data[..], i, currentUpper)
      modifies data
      ensures Compacted(temp, data[..], i + 1, newUpper) && Upper(data[..]) == old(Upper(data[..]))
      ensures newUpper == if it.flags == NORMAL then currentUpper - it.len else currentUpper
    {
      ghost var c := data[..];
      newUpper := currentUpper;
      if it.flags == NORMAL {
        newUpper := currentUpper - it.len;
        MoveTo(i, newUpper, temp[it.offset..it.offset + it.len]);
        CompactedNext(temp, c, data[..], i, currentUpper);
      } else {
        if it.flags == DEAD {
          SetItem(i, Item(DEAD, 0, 0));
        }
        CompactedSkip(temp, c, data[..], i, currentUpper);
      }
    }
  }

  // ---- compaction ---------------------------------------------------------

  function LiveLength(items: seq<Item>, n: nat): nat
    requires n <= |items|
  {
    if n == 0 then 0 else LiveLength(items, n - 1) + (if items[n - 1].flags == NORMAL then items[n - 1].len else 0)
  }

  lemma {:induction false} Span(lo: nat, hi: nat) returns (s: set<nat>)
    requires lo <= hi
    ensures |s| == hi - lo && forall x: nat :: x in s <==> lo <= x < hi
    decreases hi - lo
  {
    if lo == hi {
      s := {};
    } else {
      var rest := Span(lo, hi - 1);
      s := rest + {hi - 1};
    }
  }

  ghost predicate Covers(it: Item, x: nat) {
    it.flags == NORMAL && it.offset <= x < it.offset + it.len
  }

  /** The bytes of the first n NORMAL tuples: as many as their lengths add up to. */
  lemma {:induction false} LiveSpan(items: seq<Item>, upper: nat, n: nat) returns (s: set<nat>)
    requires LayoutOk(items, upper) && n <= |items|
    ensures |s| == LiveLength(items, n)
    ensures forall x :: x in s ==> upper <= x < PAGE_SIZE
    ensures forall x :: x in s ==> exists i :: 0 <= i < n && Covers(items[i], x)
  {
    if n == 0 {
      s := {};
    } else {
      s := LiveSpan(items, upper, n - 1);
      var it := items[n - 1];
      if it.flags == NORMAL {
        assert InBounds(it, upper);
        var mine := Span(it.offset, it.offset + it.len);
        forall x | x in s ensures x !in mine {
          var i :| 0 <= i < n - 1 && Covers(items[i], x);
          assert Disjoint(items[i], items[n - 1]);
        }
        assert s !! mine;
        s := s + mine;
      }
    }
  }

  lemma {:induction false} SubsetIsSmaller(a: set<nat>, b: set<nat>)
    requires a <= b
    ensures |a| <= |b|
  {
    if a == {} {
    } else {
      var x :| x in a;
      SubsetIsSmaller(a - {x}, b - {x});
    }
  }

  /** Disjoint tuples between pd_upper and the end of the page cannot outgrow that range. */
  lemma LiveLengthFits(b: seq<Byte>, n: nat)
    requires WellFormed(b) && n <= NumSlots(b)
    ensures LiveLength(Items(b), n) <= PAGE_SIZE - Upper(b)
  {
    var s := LiveSpan(Items(b), Upper(b), n);
    var all := Span(Upper(b), PAGE_SIZE);
    assert s <= all by {
      forall x | x in s ensures x in all {}
    }
    SubsetIsSmaller(s, all);
  }

  /** What slot i needs still fits between the line pointers and the tuples packed so far. */
  lemma RoomToCompact(b: seq<Byte>, i: nat)
    requires WellFormed(b) && i < NumSlots(b)
    ensures var it, upper := Items(b)[i], PAGE_SIZE - LiveLength(Items(b), i);
      && InBounds(it, 0) && Lower(b) <= upper && (it.flags == NORMAL ==> Lower(b) + it.len <= upper)
      && LiveLength(Items(b), i + 1) == LiveLength(Items(b), i) + if it.flags == NORMAL then it.len else 0
  {
    LiveLengthFits(b, i);
    LiveLengthFits(b, i + 1);
    assert InBounds(Items(b)[i], Upper(b));
  }

  /** Slot i of the half-compacted page: moved at or above `upper`, with its old bytes. */
  ghost predicate Moved(b: seq<Byte>, c: seq<Byte>, i: nat, upper: nat)
    requires HeaderOk(b) && HeaderOk(c) && i < NumSlots(b) && NumSlots(c) == NumSlots(b)
  {
    var p, q := Items(b)[i], Items(c)[i];
    && q.flags == p.flags && InBounds(p, 0) && InBounds(q, upper)
    && SlotOf(c, q) == SlotOf(b, p)
  }

  ghost predicate Compacted(b: seq<Byte>, c: seq<Byte>, n: nat, upper: nat) {
    && HeaderOk(b) && HeaderOk(c) && NumSlots(c) == NumSlots(b) && n <= NumSlots(b)
    && (forall j :: n <= j < NumSlots(b) ==> Items(c)[j] == Items(b)[j])
    && (forall j :: 0 <= j < n ==> Moved(b, c, j, upper))
    && (forall i, j :: 0 <= i < j < n ==> Disjoint(Items(c)[i], Items(c)[j]))
  }

  /** A slot that has been moved is not disturbed by later moves below it. */
  lemma MovedStays(b: seq<Byte>, c: seq<Byte>, d: seq<Byte>, j: nat, upper: nat, lower: nat)
    requires HeaderOk(b) && HeaderOk(c) && HeaderOk(d) && j < NumSlots(b) == NumSlots(c) == NumSlots(d)
    requires Moved(b, c, j, upper) && lower <= upper && Items(d)[j] == Items(c)[j]
    requires forall x :: upper <= x < PAGE_SIZE ==> d[x] == c[x]
    ensures Moved(b, d, j, lower)
  {
    var q := Items(c)[j];
    if q.flags == NORMAL {
      assert d[q.offset..q.offset + q.len] == c[q.offset..q.offset + q.len];
    }
  }

  lemma CompactedNext(b: seq<Byte>, c: seq<Byte>, d: seq<Byte>, i: nat, upper: nat)
    requires Compacted(b, c, i, upper) && i < NumSlots(b) && HeaderOk(d) && upper <= PAGE_SIZE
    requires Items(b)[i].flags == NORMAL && InBounds(Items(b)[i], 0) && Items(b)[i].len <= upper
    requires Items(d) == Items(c)[i := Item(NORMAL, upper - Items(b)[i].len, Items(b)[i].len)]
    requires d[upper - Items(b)[i].len..upper] == b[Items(b)[i].offset..Items(b)[i].offset + Items(b)[i].len]
    requires forall x :: upper <= x < PAGE_SIZE ==> d[x] == c[x]
    ensures Compacted(b, d, i + 1, upper - Items(b)[i].len)
  {
    var lower := upper - Items(b)[i].len;
    forall j | 0 <= j < i + 1 ensures Moved(b, d, j, lower) {
      if j < i {
        MovedStays(b, c, d, j, upper, lower);
      }
    }
    CompactedNextDisjoint(b, c, Items(d), i, upper, lower);
  }

  lemma CompactedNextDisjoint(b: seq<Byte>, c: seq<Byte>, items: seq<Item>, i: nat, upper: nat, lower: nat)
    requires Compacted(b, c, i, upper) && i < NumSlots(b) && lower <= upper
    requires items == Items(c)[i := Item(NORMAL, lower, upper - lower)]
    ensures forall j, k :: 0 <= j < k < i + 1 ==> Disjoint(items[j], items[k])
  {
    forall j, k | 0 <= j < k < i + 1 ensures Disjoint(items[j], items[k]) {
      assert Moved(b, c, j, upper);
      assert k < i ==> Disjoint(Items(c)[j], Items(c)[k]);
    }
  }

  lemma CompactedSkip(b: seq<Byte>, c: seq<Byte>, d: seq<Byte>, i: nat, upper: nat)
    requires Compacted(b, c, i, upper) && i < NumSlots(b) && HeaderOk(d) && Items(b)[i].flags != NORMAL
    requires Items(d) == Items(c) || (Items(b)[i].flags == DEAD && Items(d) == Items(c)[i := Item(DEAD, 0, 0)])
    requires forall x :: upper <= x < PAGE_SIZE ==> d[x] == c[x]
    ensures Compacted(b, d, i + 1, upper)
  {
    forall j | 0 <= j < i + 1 ensures Moved(b, d, j, upper) {
      if j < i {
        MovedStays(b, c, d, j, upper, upper);
      }
    }
    forall j, k | 0 <= j < k < i + 1 ensures Disjoint(Items(d)[j], Items(d)[k]) {
      assert k < i ==> Disjoint(Items(c)[j], Items(c)[k]);
    }
  }

  lemma CompactedDone(b: seq<Byte>, c: seq<Byte>, d: seq<Byte>, upper: nat)
    requires WellFormed(b) && Compacted(b, c, NumSlots(b), upper) && HeaderOk(d) && Items(d) == Items(c)
    requires Upper(d) == upper == PAGE_SIZE - LiveLength(Items(b), NumSlots(b))
    requires forall x :: HEADER <= x < PAGE_SIZE ==> d[x] == c[x]
    ensures WellFormed(d) && ViewOf(d) == ViewOf(b) && upper == PAGE_SIZE - LiveBytes(ViewOf(d))
  {
    forall j | 0 <= j < NumSlots(b) ensures InBounds(Items(d)[j], upper) && SlotOf(d, Items(d)[j]) == ViewOf(b)[j] {
      MovedStays(b, c, d, j, upper, upper);
    }
    assert ViewOf(d) == ViewOf(b);
    LiveBytesAreLengths(b, NumSlots(b));
    assert ViewOf(b)[..NumSlots(b)] == ViewOf(b);
  }

  lemma {:induction false} LiveBytesAreLengths(b: seq<Byte>, n: nat)
    requires WellFormed(b) && n <= NumSlots(b)
    ensures LiveBytes(ViewOf(b)[..n]) == LiveLength(Items(b), n)
  {
    if n > 0 {
      LiveBytesAreLengths(b, n - 1);
      assert ViewOf(b)[..n][..n - 1] == ViewOf(b)[..n - 1];
      assert ViewOf(b)[n - 1] == SlotOf(b, Items(b)[n - 1]);
      assert InBounds(Items(b)[n - 1], Upper(b));
    }
  }

  /** When insert_tuple_at succeeds: there is room, or a tuple of that length is already there. */
  predicate CanInsertAt(v: View, room: int, slot: SlotId, len: nat) {
    && len > 0 && slot != INVALID_SLOT_ID
    && (|| (slot <= |v| && v[slot - 1].Normal? && |v[slot - 1].item| == len)
        || LP_SIZE * (|Pad(v, slot)| - |v|) + len <= room)
  }

  lemma UnnamedKeepsView(b: seq<Byte>, c: seq<Byte>, k: nat, it: Item)
    requires WellFormed(b) && HeaderOk(c) && k < NumSlots(b) && it.flags != NORMAL
    requires Items(c) == Items(b)[k := it] && Upper(c) == Upper(b)
    requires forall x :: Upper(b) <= x < PAGE_SIZE ==> c[x] == b[x]
    ensures WellFormed(c) && ViewOf(c) == ViewOf(b)[k := SlotOf(b, it)]
  {
    forall i, j | 0 <= i < j < NumSlots(c) ensures Disjoint(Items(c)[i], Items(c)[j]) {
      assert Disjoint(Items(b)[i], Items(b)[j]);
    }
    forall j | 0 <= j < NumSlots(c) ensures InBounds(Items(c)[j], Upper(c)) {
      assert InBounds(Items(b)[j], Upper(b));
    }
    forall j | 0 <= j < NumSlots(c) ensures ViewOf(c)[j] == ViewOf(b)[k := SlotOf(b, it)][j] {
      var it := Items(b)[j];
      assert InBounds(it, Upper(b));
      if it.flags == NORMAL {
        assert c[it.offset..it.offset + it.len] == b[it.offset..it.offset + it.len];
      }
    }
  }

  lemma GrownView(b: seq<Byte>, c: seq<Byte>)
    requires WellFormed(b) && HeaderOk(c) && Upper(c) == Upper(b)
    requires Items(c) == Items(b) + [Item(UNUSED, 0, 0)]
    requires forall x :: Upper(b) <= x < PAGE_SIZE ==> c[x] == b[x]
    ensures WellFormed(c) && ViewOf(c) == ViewOf(b) + [Unused]
  {
    forall i, j | 0 <= i < j < NumSlots(c) ensures Disjoint(Items(c)[i], Items(c)[j]) {
      assert j < NumSlots(b) ==> Disjoint(Items(b)[i], Items(b)[j]);
    }
    forall j | 0 <= j < NumSlots(c) ensures InBounds(Items(c)[j], Upper(c)) {
      assert j < NumSlots(b) ==> InBounds(Items(b)[j], Upper(b));
    }
    forall j | 0 <= j < NumSlots(b) ensures ViewOf(c)[j] == ViewOf(b)[j] {
      var it := Items(b)[j];
      assert InBounds(it, Upper(b));
      if it.flags == NORMAL {
        assert c[it.offset..it.offset + it.len] == b[it.offset..it.offset + it.len];
      }
    }
  }

  lemma OverwrittenView(b: seq<Byte>, c: seq<Byte>, k: nat, bytes: seq<Byte>)
    requires WellFormed(b) && HeaderOk(c) && k < NumSlots(b) && Items(c) == Items(b) && Upper(c) == Upper(b)
    requires Items(b)[k].flags == NORMAL && Items(b)[k].len == |bytes|
    requires c[Items(b)[k].offset..Items(b)[k].offset + |bytes|] == bytes
    requires forall x :: 0 <= x < Items(b)[k].offset || Items(b)[k].offset + |bytes| <= x < PAGE_SIZE ==> c[x] == b[x]
    ensures WellFormed(c) && ViewOf(c) == ViewOf(b)[k := Normal(bytes)]
    ensures ViewOf(b)[k] == Normal(bytes) ==> c == b
  {
    var mine := Items(b)[k];
    forall j | 0 <= j < NumSlots(b) ensures ViewOf(c)[j] == ViewOf(b)[k := Normal(bytes)][j] {
      var it := Items(b)[j];
      assert InBounds(it, Upper(b)) && InBounds(mine, Upper(b));
      if j != k && it.flags == NORMAL {
        assert Disjoint(it, mine) by {
          assert j < k ==> Disjoint(Items(b)[j], Items(b)[k]);
          assert k < j ==> Disjoint(Items(b)[k], Items(b)[j]);
        }
        assert c[it.offset..it.offset + it.len] == b[it.offset..it.offset + it.len];
      }
    }
    if ViewOf(b)[k] == Normal(bytes) {
      SameWithin(b, c, mine.offset, mine.offset + |bytes|);
    }
  }

  lemma SameWithin(b: seq<Byte>, c: seq<Byte>, lo: nat, hi: nat)
    requires lo <= hi <= |b| == |c| && b[lo..hi] == c[lo..hi]
    requires forall x :: 0 <= x < lo || hi <= x < |b| ==> c[x] == b[x]
    ensures c == b
  {
    forall x | lo <= x < hi ensures c[x] == b[x] {
      assert b[lo..hi][x - lo] == c[lo..hi][x - lo];
    }
  }
}
