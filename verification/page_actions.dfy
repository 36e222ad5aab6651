/** The pages of bytes that redo and VACUUM change are the pages of slots their theorems speak of. */
module PageActions {
  import opened StorageTypes
  import opened SlottedPage
  import opened Transactions
  import R = Redo
  import Vacuum

  type Parser = seq<Byte> -> HeapTuple

  function DecodedSlot(s: Slot<seq<Byte>>, parse: Parser): Slot<HeapTuple> {
    match s
    case Unused => Unused
    case Dead => Dead
    case Redirect(target) => Redirect(target)
    case Normal(bytes) => Normal(parse(bytes))
  }

  function Decoded(v: View, parse: Parser): (page: HeapPage)
    ensures |page| == |v|
  {
    seq(|v|, i requires 0 <= i < |v| => DecodedSlot(v[i], parse))
  }

  lemma DecodedPut(v: View, slot: SlotId, bytes: seq<Byte>, parse: Parser)
    requires slot != INVALID_SLOT_ID
    ensures Decoded(Pad(v, slot)[slot - 1 := Normal(bytes)], parse) == R.PutAt(Decoded(v, parse), slot, parse(bytes))
  {
    if slot > |v| {
      assert Pad(v, slot)[slot - 1 := Normal(bytes)] == v + seq(slot - 1 - |v|, _ => Unused) + [Normal(bytes)];
    }
  }

  /** A successful insert_tuple_at does to the decoded slots what redo's insertion does. */
  lemma InsertedAtIsPutAt(b: seq<Byte>, c: seq<Byte>, slot: SlotId, bytes: seq<Byte>, parse: Parser)
    requires WellFormed(b) && InsertedAt(b, c, slot, bytes, true)
    ensures Decoded(ViewOf(c), parse) == R.PutAt(Decoded(ViewOf(b), parse), slot, parse(bytes))
  {
    DecodedPut(ViewOf(b), slot, bytes, parse);
  }

  /** What VACUUM does to slot s is overwriting its line pointer, if it changes it at all. */
  lemma MarkedIsLinePointerSet(v: View, pid: PageId, s: SlotId, tm: State, horizon: TxId, parse: Parser)
    requires 1 <= s <= |v|
    ensures var marked := Vacuum.MarkSlot(Decoded(v, parse)[s - 1], pid, s, tm, horizon);
      || marked == Decoded(v, parse)[s - 1]
      || (marked == Dead && Decoded(v, parse)[s - 1 := marked] == Decoded(v[s - 1 := Dead], parse))
      || (marked.Redirect? && Decoded(v, parse)[s - 1 := marked] == Decoded(v[s - 1 := Redirect(marked.target)], parse))
  {
  }
}
