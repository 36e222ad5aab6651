/** Which status each step leaves each transaction with (src/tx.cpp), and that the commit log alone tells a
    manager that is opened later the same. */
module TxStatuses {
  import opened StorageTypes
  import opened Transactions
  import opened Mvcc

  /** A step changes the status of its own transaction, as its name says, and of no other. */
  lemma StepDecides(s: System, e: Event, s': System, x: TxId)
    requires Inv(s) && Step(s, e, s')
    ensures s'.tm.GetStatus(x) ==
      match e
      case Commit(tx) => if x == tx then Committed else s.tm.GetStatus(x)
      case Abort(tx) => if x == tx then Aborted else s.tm.GetStatus(x)
      case Set(tx, status) =>
        if x == tx && x != 0 then status
        else if s.tm.clog == None && s.tm.nextTxId <= x < tx && x !in s.tm.statusMap then Aborted  // taken for crashed
        else s.tm.GetStatus(x)
      case _ => s.tm.GetStatus(x)
  {
    assert x >= s.tm.nextTxId ==> s.tm.GetStatus(x) == InProgress;
  }

  /** What a manager opened on this commit log starts from. */
  function Reopened(clog: map<TxId, Status>): State {
    State(1, Some(clog[0 := Committed]), map[0 := Committed], {}, map[])
  }

  /** The commit log alone answers as the manager does. */
  ghost predicate ClogAnswers(tm: State) {
    tm.clog.Some? && forall x: TxId :: Reopened(tm.clog.value).GetStatus(x) == tm.GetStatus(x)
  }

  lemma StepKeepsClog(s: System, e: Event, s': System)
    requires Inv(s) && Step(s, e, s') && ClogAnswers(s.tm)
    ensures ClogAnswers(s'.tm)
  {
    forall x: TxId ensures Reopened(s'.tm.clog.value).GetStatus(x) == s'.tm.GetStatus(x) {
      StepDecides(s, e, s', x);
      assert Reopened(s.tm.clog.value).GetStatus(x) == s.tm.GetStatus(x);
    }
  }

  /** After any run, a manager opened on the commit log answers for every transaction as the old one did; one that
      had not finished is still in progress, not committed. */
  lemma {:induction false} ReopenedAnswers(states: seq<System>, events: seq<Event>, i: nat)
    requires TxRun(states, events) && Inv(states[0]) && ClogAnswers(states[0].tm) && i < |states|
    ensures ClogAnswers(states[i].tm)
    ensures forall x :: x in states[i].tm.activeTxs ==> Reopened(states[i].tm.clog.value).GetStatus(x) == InProgress
  {
    RunKeepsInv(states, events, i);
    if i > 0 {
      ReopenedAnswers(states, events, i - 1);
      RunKeepsInv(states, events, i - 1);
      assert StepAt(states, events, i - 1);
      StepKeepsClog(states[i - 1], events[i - 1], states[i]);
    }
  }

  /** A manager that has just been opened answers from its log. */
  method Open(clog: map<TxId, Status>) returns (tm: TransactionManager)
    ensures fresh(tm) && tm.View() == Reopened(clog) && ClogAnswers(tm.View())
  {
    tm := new TransactionManager(Some(clog));
  }
}
