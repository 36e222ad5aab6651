/** The log manager (src/wal.cpp, lines 50-179): append, flush and the durability it buys. `durable`
    is a ghost: how many records the last sync forced to disk. */
module WalManager {
  import opened StorageTypes
  import opened WalLog

  const COMMIT: nat := 3
  const CHECKPOINT: nat := 5
  const FPI: nat := 6
  const INVALID_PAGE_ID: nat := 0xFFFF_FFFF

  class Wal {
    const write: Writer  // a record as bytes, its checksum included
    var file: seq<Byte>
    var currentLsn: nat
    var flushedLsn: nat
    var prevLsn: nat
    var checkpointLsn: nat
    var fpiWrittenPages: set<nat>
    ghost var records: seq<Record>
    ghost var durable: nat

    ghost predicate Valid()
      reads this
    {
      && (forall r :: |write(r)| == Size(r)) && file == EncodeAll(records, write)
      && currentLsn == |file|
      && (forall i, j :: 0 <= i < j < |records| ==> records[i].lsn + Size(records[i]) <= records[j].lsn)
      && (forall i :: 0 <= i < |records| ==> records[i].lsn + Size(records[i]) <= currentLsn)
      // the last sync ended between two records, and flushed_lsn_ has not moved past it
      && durable <= |records| && flushedLsn <= currentLsn
      && (forall i :: durable <= i < |records| ==> flushedLsn <= records[i].lsn)
    }

    /** A page stamped with `lsn` may reach disk: every record starting below it is durable. */
    ghost predicate Covers(lsn: nat)
      reads this
    {
      forall i :: 0 <= i < |records| && records[i].lsn < lsn ==> i < durable
    }

    /** A new, empty log file. */
    constructor (sum: Checksum)
      ensures Valid() && records == [] && write == RecordWriter(sum)
    {
      write := RecordWriter(sum);
      file, currentLsn, flushedLsn, prevLsn, checkpointLsn, fpiWrittenPages := [], 0, 0, 0, 0, {};
      records, durable := [], 0;
    }

    method AppendRecord(kind: nat, tx: nat, page: nat, slot: nat, payload: seq<Byte>) returns (lsn: nat)
      requires Valid()
      modifies this`file, this`currentLsn, this`prevLsn, this`records
      ensures Valid() && lsn == old(currentLsn) && currentLsn == lsn + HEADER_SIZE + |payload|
      ensures records == old(records) + [Record(lsn, old(prevLsn), tx, kind, page, slot, payload)]
      ensures prevLsn == lsn
    {
      var r := Record(currentLsn, prevLsn, tx, kind, page, slot, payload);
      ghost var before := records;
      file := file + write(r);
      prevLsn := currentLsn;
      currentLsn := currentLsn + Size(r);
      records := records + [r];
      assert records[..|records| - 1] == before;
      return r.lsn;
    }

    /** flush(target_lsn): one sync covers the whole file, but flushed_lsn_ moves only to the target. */
    method FlushTo(target: nat)
      requires Valid()
      modifies this`flushedLsn, this`durable
      ensures Valid() && Covers(target)
      ensures if target <= old(flushedLsn) then durable == old(durable) && flushedLsn == old(flushedLsn)
              else durable == |records| && flushedLsn == if target < currentLsn then target else currentLsn
    {
      if target > flushedLsn {
        durable := |records|;
        var reached := if target < currentLsn then target else currentLsn;
        flushedLsn := if flushedLsn < reached then reached else flushedLsn;
      }
    }

    method Flush()
      requires Valid()
      modifies this`flushedLsn, this`durable
      ensures Valid() && Covers(currentLsn) && durable == |records|
    {
      FlushTo(currentLsn);
    }

    method FlushUpTo(pageLsn: nat)
      requires Valid()
      modifies this`flushedLsn, this`durable
      ensures Valid() && Covers(pageLsn) && durable >= old(durable)
    {
      if pageLsn > flushedLsn {
        FlushTo(pageLsn);
      }
    }

    /** log_commit asks for the log up to the record's own start, not past its end. The COMMIT is
        on disk when the call returns exactly when flushed_lsn_ lay below that start. */
    method LogCommit(tx: nat) returns (lsn: nat)
      requires Valid()
      modifies this`file, this`currentLsn, this`prevLsn, this`records, this`flushedLsn, this`durable
      ensures Valid() && records == old(records) + [Record(lsn, old(prevLsn), tx, COMMIT, INVALID_PAGE_ID, 0, [])]
      ensures Covers(lsn) && lsn == old(currentLsn)
      ensures durable == |records| <==> old(flushedLsn) < old(currentLsn)
      ensures old(flushedLsn) == old(currentLsn) ==> durable == old(durable)
    {
      lsn := AppendRecord(COMMIT, tx, INVALID_PAGE_ID, 0, []);
      FlushTo(lsn);
    }

    /** Lines 134-135: from here the first write to each page logs a fresh full-page image. */
    method BeginEpoch(lsn: nat)
      requires Valid()
      modifies this`checkpointLsn, this`fpiWrittenPages
      ensures Valid() && checkpointLsn == lsn && fpiWrittenPages == {}
    {
      checkpointLsn := lsn;
      fpiWrittenPages := {};
    }

    /** The part of log_checkpoint that follows the pool's flush. */
    method LogCheckpoint() returns (lsn: nat)
      requires Valid()
      modifies this`file, this`currentLsn, this`prevLsn, this`records, this`flushedLsn, this`durable
      modifies this`checkpointLsn, this`fpiWrittenPages
      ensures Valid() && lsn == old(currentLsn) == checkpointLsn && fpiWrittenPages == {}
      ensures records == old(records) + [Record(lsn, old(prevLsn), 0, CHECKPOINT, INVALID_PAGE_ID, 0, [])]
      ensures durable == |records| && flushedLsn == currentLsn
    {
      lsn := AppendRecord(CHECKPOINT, 0, INVALID_PAGE_ID, 0, []);
      BeginEpoch(lsn);
      assert flushedLsn < currentLsn;
      FlushTo(currentLsn);
    }

    method LogFpi(page: nat, image: seq<Byte>) returns (lsn: nat)
      requires Valid()
      modifies this`file, this`currentLsn, this`prevLsn, this`records, this`fpiWrittenPages
      ensures Valid() && lsn == old(currentLsn) && fpiWrittenPages == old(fpiWrittenPages) + {page}
      ensures records == old(records) + [Record(lsn, old(prevLsn), 0, FPI, page, 0, image)]
    {
      lsn := AppendRecord(FPI, 0, page, 0, image);
      fpiWrittenPages := fpiWrittenPages + {page};
    }
  }

  /** The lost COMMIT: a checkpoint flushes everything, so the next log_commit finds nothing to do.
      It returns with the COMMIT record written to the file and not forced to disk. */
  method CommitAfterCheckpoint(wal: Wal, tx: nat)
    requires wal.Valid()
    modifies wal
    ensures wal.Valid() && |wal.records| == old(|wal.records|) + 2
    ensures wal.records[|wal.records| - 1].kind == COMMIT && wal.durable == |wal.records| - 1
  {
    var checkpoint := wal.LogCheckpoint();
    var commit := wal.LogCommit(tx);
  }
}
