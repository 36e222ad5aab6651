/** Plain data shared by the storage components. Identifiers and log positions are unbounded. */
module StorageTypes {
  datatype Option<+T> = None | Some(value: T)

  type Byte = b: int | 0 <= b < 256

  type TxId = nat
  type PageId = nat
  type SlotId = nat  // 1-based; 0 is INVALID_SLOT_ID

  const INVALID_TX_ID: TxId := 0
  const INVALID_SLOT_ID: SlotId := 0

  /** Physical address of a tuple version (include/pg/tuple.h, lines 17-39). */
  datatype Ctid = Ctid(page: PageId, slot: SlotId)

  /** include/pg/tuple.h, lines 43-56; the infomask is its three named bits. */
  datatype TupleHeader = TupleHeader(xmin: TxId, xmax: TxId, tCtid: Ctid,
                                     hotUpdated: bool, heapOnly: bool, hasExternal: bool)

  /** A row version of the items table (include/pg/tuple.h, lines 60-72). */
  datatype HeapTuple = HeapTuple(header: TupleHeader, itemId: int, price: int)

  /** What a line pointer means, whatever byte offset it carries (include/pg/page.h, lines 14-19). */
  datatype Slot<+T> = Unused | Dead | Redirect(target: SlotId) | Normal(item: T)

  type HeapPage = seq<Slot<HeapTuple>>

  /** An index entry: key and the root of the version chain it leads to. */
  datatype IndexEntry = IndexEntry(key: int, ctid: Ctid)
}
