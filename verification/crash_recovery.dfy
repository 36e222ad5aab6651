/** Whole runs and a crash (src/wal.cpp, lines 307-372): redo from the last checkpoint brings every page
    back to what the pool held when the last surviving record was written. */
module CrashRecovery {
  import opened StorageTypes
  import opened Redo
  import opened Durability

  // ---- runs ---------------------------------------------------------------

  ghost predicate Run(states: seq<Sys>, events: seq<Event>, sizes: seq<nat>) {
    && |states| == |events| + 1 == |sizes| + 1 && states[0] == EMPTY
    && forall i :: 0 <= i < |events| ==> StepAt(states, events, sizes, i)
  }

  ghost predicate StepAt(states: seq<Sys>, events: seq<Event>, sizes: seq<nat>, i: nat) {
    && i < |events| && i < |sizes| && i + 1 < |states|
    && Step(states[i], events[i], sizes[i], states[i + 1])
  }

  ghost predicate Step(s: Sys, e: Event, size: nat, s': Sys) {
    size > 0 && Enabled(s, e) && s' == Next(s, e, size)
  }

  /** Every insert, update, commit, page write and checkpoint keeps log, pool and disk in agreement. */
  lemma {:induction false} StepKeepsInv(s: Sys, e: Event, size: nat, s': Sys)
    requires Inv(s) && Step(s, e, size, s')
    ensures Inv(s')
  {
    if e.NewPage? {
      ExtendKeepsInv(s, e.pid, FRESH);
    } else if e.NewPageNoFrame? {
      ExtendKeepsInv(s, e.pid, BLANK);
    } else if e.WritePage? {
      WriteKeepsInv(s, e.page);
    } else if e.TakeCheckpoint? {
      CheckpointKeepsInv(s, size);
    } else {
      AppendedAppends(s, e, size);
      AppendKeepsInv(s, Record(s.log, Logged(s, e), size), Appended(s, e, size));
      if e.Commit? {
        FlushKeepsInv(Appended(s, e, size), NextLsn(s.log));
      }
    }
  }

  lemma {:induction false} RunKeepsInv(states: seq<Sys>, events: seq<Event>, sizes: seq<nat>, i: nat)
    requires Run(states, events, sizes) && i < |states|
    ensures Inv(states[i])
  {
    if i == 0 {
      assert forall pid :: PageInv(EMPTY, pid);
    } else {
      RunKeepsInv(states, events, sizes, i - 1);
      assert StepAt(states, events, sizes, i - 1);
      StepKeepsInv(states[i - 1], events[i - 1], sizes[i - 1], states[i]);
    }
  }

  /** The WAL rule over whole runs: no page on disk ever claims a record that is not durable, though
      pages are stamped only lsn + 1 and flushed_lsn_ can point into the middle of a record. */
  lemma {:induction false} WalRuleHolds(states: seq<Sys>, events: seq<Event>, sizes: seq<nat>, i: nat, pid: PageId)
    requires Run(states, events, sizes) && i < |states|
    ensures WalRule(states[i], pid)
  {
    RunKeepsInv(states, events, sizes, i);
  }

  /** flush(lsn) asks for the start of the COMMIT record. The record itself is durable when commit
      returns exactly when flushed_lsn_ lay below that start. */
  lemma {:induction false} CommitIsDurableExactlyWhen(s: Sys, size: nat)
    requires Inv(s) && size > 0
    ensures Next(s, Commit, size).durable == |Next(s, Commit, size).log| <==> s.flushedLsn < NextLsn(s.log)
  {
  }

  predicate StartsAtCheckpoint(s: Sys) {
    s.log != [] && s.log[0].action.Checkpoint?
  }

  /** From one moment to a later one; the base changes only with a checkpoint. */
  ghost predicate Extends(a: Sys, b: Sys) {
    && |a.log| <= |b.log| && b.log[..|a.log|] == a.log
    && a.ckpt <= b.ckpt
    && (a.ckpt == b.ckpt && (StartsAtCheckpoint(b) ==> StartsAtCheckpoint(a)) ==> a.base == b.base)
  }

  lemma ExtendsItself(a: Sys)
    ensures Extends(a, a)
  {
    assert a.log[..|a.log|] == a.log;
  }

  lemma {:induction false} ExtendsTransitive(a: Sys, b: Sys, c: Sys)
    requires Extends(a, b) && Extends(b, c)
    ensures Extends(a, c)
  {
    assert c.log[..|b.log|][..|a.log|] == c.log[..|a.log|];
  }

  lemma {:induction false} StepGrowsLog(s: Sys, e: Event, size: nat)
    requires Inv(s) && Enabled(s, e) && size > 0
    ensures Extends(s, Next(s, e, size)) && |Next(s, e, size).log| <= |s.log| + 1
  {
    if Logs(e) && !e.TakeCheckpoint? {
      AppendedAppends(s, e, size);
    }
  }

  lemma {:induction false} LogGrows(states: seq<Sys>, events: seq<Event>, sizes: seq<nat>, i: nat, j: nat)
    requires Run(states, events, sizes) && i <= j < |states|
    ensures Extends(states[i], states[j])
  {
    if i == j {
      ExtendsItself(states[i]);
    } else {
      LogGrows(states, events, sizes, i, j - 1);
      RunStepGrowsLog(states, events, sizes, j - 1);
      ExtendsTransitive(states[i], states[j - 1], states[j]);
    }
  }

  lemma {:induction false} RunStepGrowsLog(states: seq<Sys>, events: seq<Event>, sizes: seq<nat>, i: nat)
    requires Run(states, events, sizes) && i < |events|
    ensures Extends(states[i], states[i + 1]) && |states[i + 1].log| <= |states[i].log| + 1
  {
    RunKeepsInv(states, events, sizes, i);
    assert StepAt(states, events, sizes, i);
    StepGrowsLog(states[i], events[i], sizes[i]);
  }

  /** Every prefix of the log was once the whole log. */
  lemma {:induction false} MomentOf(states: seq<Sys>, events: seq<Event>, sizes: seq<nat>, j: nat, k: nat) returns (i: nat)
    requires Run(states, events, sizes) && j < |states| && k <= |states[j].log|
    ensures i <= j && states[i].log == states[j].log[..k]
    decreases j
  {
    if k == |states[j].log| {
      i := j;
      assert states[j].log[..k] == states[j].log;
    } else {
      assert j > 0;
      RunStepGrowsLog(states, events, sizes, j - 1);
      i := MomentOf(states, events, sizes, j - 1, k);
      assert states[j].log[..|states[j - 1].log|][..k] == states[j].log[..k];
    }
  }

  lemma {:induction false} CheckpointOfPrefix(log: Log, k: nat)
    requires k <= |log|
    requires LastCheckpoint(log) < k || (LastCheckpoint(log) == 0 == k && (log == [] || !log[0].action.Checkpoint?))
    ensures LastCheckpoint(log[..k]) == LastCheckpoint(log)
    decreases |log|
  {
    if k == |log| {
      assert log[..k] == log;
    } else {
      var n := |log| - 1;
      CheckpointOfPrefix(log[..n], k);
      assert log[..n][..k] == log[..k];
    }
  }

  lemma {:induction false} SliceIsWellFormed(log: Log, from: nat, k: nat)
    requires WellFormed(log) && from <= k <= |log|
    ensures WellFormed(log[from..]) && WellFormed(log[..k][from..])
  {
    TailIsWellFormed(log, from);
    PrefixIsWellFormed(log, k);
    TailIsWellFormed(log[..k], from);
  }

  lemma {:induction false} ReflectsShorter(short: Log, tail: Log, pid: PageId, base: HeapPage, p: PageState)
    requires WellFormed(short) && WellFormed(tail) && |short| <= |tail|
    requires forall i :: 0 <= i < |short| ==> short[i] == tail[i]
    requires |short| < |tail| ==> tail[|short|].lsn >= p.lsn
    requires Reflects(tail, pid, base, p)
    ensures Reflects(short, pid, base, p)
  {
    NamedAgrees(short, tail, p.lsn);
  }

  lemma {:induction false} SlicesAgree(log: Log, from: nat, k: nat)
    requires from <= k <= |log|
    ensures |log[..k][from..]| == k - from && |log[from..]| == |log| - from
    ensures forall i :: 0 <= i < k - from ==> log[..k][from..][i] == log[from..][i]
    ensures k < |log| ==> log[from..][k - from] == log[k]
  {
  }

  lemma {:induction false} DiskReflectsPrefix(s: Sys, k: nat, pid: PageId)
    requires Ordered(s) && PageInv(s, pid) && WalRule(s, pid) && s.durable <= k <= |s.log|
    ensures WellFormed(s.log[..k][s.ckpt..])
    ensures Reflects(s.log[..k][s.ckpt..], pid, At(s.base, pid).slots, At(s.disk, pid))
  {
    SliceIsWellFormed(s.log, s.ckpt, k);
    var short, tail := s.log[..k][s.ckpt..], s.log[s.ckpt..];
    SlicesAgree(s.log, s.ckpt, k);
    assert k < |s.log| ==> s.log[k].lsn >= At(s.disk, pid).lsn;
    ReflectsShorter(short, tail, pid, At(s.base, pid).slots, At(s.disk, pid));
  }

  /** What is replayed of a log after a crash. */
  function Replayed(log: Log): Log {
    log[LastCheckpoint(log)..]
  }

  /** Recovery is exact. Crash at any moment j of any run, with any mixture of pages on disk; let any
      prefix of the log that contains every durable record survive. Then redo from the last
      checkpoint brings a page, up to infomask bits, to what the pool held at the moment i when the
      last surviving record was written, exactly when the page had ever been written to disk, or an
      image of it is replayed, or no replayed record puts a tuple on it. */
  lemma {:induction false} RedoRestoresHistory(states: seq<Sys>, events: seq<Event>, sizes: seq<nat>,
                                               j: nat, k: nat, pid: PageId) returns (i: nat)
    requires Run(states, events, sizes) && j < |states| && states[j].durable <= k <= |states[j].log|
    ensures i <= j && states[i].log == states[j].log[..k]
    ensures var replayed, onDisk := Replayed(states[j].log[..k]), At(states[j].disk, pid);
      Same(RedoPage(replayed, pid, onDisk).slots, At(states[i].pool, pid).slots) <==>
      onDisk.formatted || HasImage(replayed, pid) || PutsNothing(replayed, pid)
  {
    i := MomentOf(states, events, sizes, j, k);
    LogGrows(states, events, sizes, i, j);
    RunKeepsInv(states, events, sizes, i);
    RunKeepsInv(states, events, sizes, j);
    assert k > 0 ==> states[j].log[..k][0] == states[j].log[0];
    RedoMatchesPool(states[i], states[j], k, pid);
  }

  lemma {:induction false} RedoMatchesPool(past: Sys, now: Sys, k: nat, pid: PageId)
    requires Inv(past) && Inv(now) && now.durable <= k <= |now.log| && past.log == now.log[..k]
    requires past.ckpt == now.ckpt ==> past.base == now.base
    ensures var replayed, onDisk := Replayed(past.log), At(now.disk, pid);
      Same(RedoPage(replayed, pid, onDisk).slots, At(past.pool, pid).slots) <==>
      onDisk.formatted || HasImage(replayed, pid) || PutsNothing(replayed, pid)
  {
    assert PageInv(now, pid) && WalRule(now, pid) && PageInv(past, pid);
    CheckpointOfPrefix(now.log, k);
    DiskReflectsPrefix(now, k, pid);
    RedoRestoresExactlyWhen(Tail(past), pid, At(now.base, pid).slots, At(now.disk, pid));
  }

  // ---- what goes wrong ----------------------------------------------------

  function Row(): HeapTuple {
    HeapTuple(TupleHeader(1, 0, Ctid(0, 1), false, false, false), 7, 0)
  }

  function LostRowLog(): Log {
    [Entry(0, 1, Insert(0, 1, Row())), Entry(1, 2, Other)]
  }

  /** Nothing, then a new page, then a row on it, then its commit. */
  function LostRowStates(): seq<Sys> {
    var onDisk: Pages := map[0 := BLANK];
    var inPool: Pages := map[0 := PageState(1, true, [Normal(Row())])];
    [EMPTY,
     Sys([], 0, 0, map[0 := FRESH], onDisk, 0, map[]),
     Sys([LostRowLog()[0]], 0, 0, inPool, onDisk, 0, map[]),
     Sys(LostRowLog(), 2, 1, inPool, onDisk, 0, map[])]
  }

  lemma LostRowIsRun()
    ensures Run(LostRowStates(), [NewPage(0), InsertRow(0, 1, Row()), Commit], [1, 1, 1])
  {
    var s := LostRowStates();
    assert PutAt([], 1, Row()) == [Normal(Row())];
    assert s[2].log + [Entry(1, 2, Other)] == LostRowLog();
    assert LastCheckpoint([]) == 0;
    assert Step(s[0], NewPage(0), 1, s[1]);
    assert Step(s[1], InsertRow(0, 1, Row()), 1, s[2]);
    assert Step(s[2], Commit, 1, s[3]);
  }

  /** The relation is extended for a row, the row is logged and committed, and the system crashes
      before the page is written. Every record survives, and the committed row is gone. */
  lemma CommittedRowOnNewPageIsLost()
    ensures Run(LostRowStates(), [NewPage(0), InsertRow(0, 1, Row()), Commit], [1, 1, 1])
    ensures var s := LostRowStates()[3];
      && s.durable == |s.log| == 2 && At(s.pool, 0).slots == [Normal(Row())]
      && RedoPage(Replayed(s.log), 0, At(s.disk, 0)).slots == []
  {
    LostRowIsRun();
    var log := LostRowLog();
    assert log[..1] == [log[0]] && log[..1][..0] == [];
    assert LastCheckpoint(log[..1]) == 0 && LastCheckpoint(log) == 0;
    assert log[0..] == log;
    BlankStaysBlank(log, 0, BLANK);
  }

  /** A commit right after a checkpoint: flush(lsn) finds nothing to do, and the COMMIT record may be
      lost although the transaction was told that it had committed. */
  lemma CommitAfterCheckpointIsNotDurable() returns (states: seq<Sys>, events: seq<Event>, sizes: seq<nat>)
    ensures Run(states, events, sizes) && events == [TakeCheckpoint, Commit]
    ensures states[2].durable == 1 < |states[2].log|
  {
    events, sizes := [TakeCheckpoint, Commit], [1, 1];
    var a := Next(EMPTY, TakeCheckpoint, 1);
    states := [EMPTY, a, Next(a, Commit, 1)];
  }
}
