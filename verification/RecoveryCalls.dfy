/** What runs of the engine show and recover, told by the calls alone: by who finished, who was rolled back, and
    what each asked for. */
module RecoveryCalls {
  import opened Wrappers
  import opened BufferPool
  import opened WriteAheadLog
  import opened Recovery
  import opened RecoverySafety
  import opened BufferSteps
  import opened RecoveryRuns

  /** The call changes the key: a write, or a deletion of a row that is buffered or seen. */
  ghost predicate Changes(s: State, c: Call, k: Key) {
    && c.Ask? && (c.request.Write? || c.request.Delete?) && c.request.key == k
    && (c.request.Delete? ==> k in s.buffer || See(s, k).Some?)
  }

  /** The value of a key after the changes by the transactions that finish in `all`, in the order of the calls. */
  ghost function Value(calls: seq<Call>, states: seq<State>, all: seq<Call>, k: Key, base: Option<Row>): Option<Row>
    requires |states| == |calls| + 1
  {
    if calls == [] then base
    else
      var n := |calls| - 1;
      if Changes(states[n], calls[n], k) && Finish(calls[n].request.tx) in all
        then (if calls[n].request.Write? then Some(calls[n].request.row) else None)
      else Value(calls[..n], states[..n + 1], all, k, base)
  }

  /** A transaction that began and neither finished nor was rolled back. */
  ghost predicate StillRuns(calls: seq<Call>, tx: TxId) {
    Begin(tx) in calls && Finish(tx) !in calls && Rollback(tx) !in calls
  }

  ghost predicate ChangedBy(calls: seq<Call>, states: seq<State>, k: Key, tx: TxId)
    requires |states| == |calls| + 1
  {
    exists i | 0 <= i < |calls| :: Changes(states[i], calls[i], k) && calls[i].request.tx == tx
  }

  // ---- what one call adds to the log ----

  ghost predicate AddedBy(s: State, c: Call, more: Log) {
    match c
    case Ask(r) => more == Entries(s, r)
    case Begin(tx) => more == [Lifecycle(tx, Start)]
    case Finish(tx) => more == [Lifecycle(tx, Commit)]
    case Rollback(tx) => |more| > 0 && more[0] == Lifecycle(tx, Abort) && forall i | 0 < i < |more| :: more[i].Compensation?
  }

  lemma Grows(capacity: nat, s: State, c: Call, s': State) returns (more: Log)
    requires Next(capacity, s, c, s')
    ensures AddedBy(s, c, more) && After(s'.log) == After(s.log) + more
  {
    hide Good, OnDisk, Lookup, DiskFollows, UndoneIn, SinceStart, After, Hidden, SeenAfter;
    match c {
      case Ask(r) =>
        more := Entries(s, r);
      case Begin(tx) =>
        more := [Lifecycle(tx, Start)];
      case Finish(tx) =>
        more := [Lifecycle(tx, Commit)];
      case Rollback(tx) =>
        var operations := SinceStart(s.log + [Lifecycle(tx, Abort)], tx);
        more := [Lifecycle(tx, Abort)] + Compensations(operations);
        CompensationsReverse(operations);
        assert s'.log == s.log + more;
    }
    AfterMore(s.log, more);
  }

  lemma {:induction false} PartiesThen(log: Log, more: Log, tx: TxId)
    ensures Started(log + more, tx) <==> Started(log, tx) || Lifecycle(tx, Start) in more
    ensures tx in Committed(log + more) <==> tx in Committed(log) || Lifecycle(tx, Commit) in more
    ensures tx in Aborted(log + more) <==> tx in Aborted(log) || Lifecycle(tx, Abort) in more
    decreases |more|
  {
    hide Started, Committed, Aborted;
    if more == [] {
      assert log + more == log;
    } else {
      var rest, x, whole := more[..|more| - 1], more[|more| - 1], log + more;
      assert whole[..|whole| - 1] == log + rest && more == rest + [x];
      PartiesThen(log, rest, tx);
      StartedMore(whole, tx);
      InCommitted(whole, tx);
    }
  }

  // ---- who began, finished and was rolled back ----

  lemma PartiesOf(s: State, c: Call, more: Log, tx: TxId)
    requires AddedBy(s, c, more)
    ensures Lifecycle(tx, Start) in more <==> c == Begin(tx)
    ensures Lifecycle(tx, Commit) in more <==> c == Finish(tx)
    ensures Lifecycle(tx, Abort) in more <==> c == Rollback(tx)
  {
    hide See, Hidden;
    if c.Rollback? {
      assert forall e | e in more :: e == more[0] || e.Compensation?;
    }
  }

  /** At every point the log since the checkpoint says of each transaction what the calls were. */
  lemma {:induction false} PartiesByCalls(capacity: nat, calls: seq<Call>, states: seq<State>, was: Key -> Option<Row>, tx: TxId)
    requires IsHistory(capacity, calls, states, was)
    ensures var log := After(states[|calls|].log);
            && (Started(log, tx) <==> Begin(tx) in calls)
            && (tx in Committed(log) <==> Finish(tx) in calls)
            && (tx in Aborted(log) <==> Rollback(tx) in calls)
    decreases |calls|
  {
    hide Next, After, Started, Committed, Aborted, AddedBy;
    if calls == [] {
      NoParties(states[0], was, tx);
    } else {
      var n := |calls| - 1;
      HistoryPrefix(capacity, calls, states, was);
      PartiesByCalls(capacity, calls[..n], states[..n + 1], was, tx);
      var more := Grows(capacity, states[n], calls[n], states[n + 1]);
      PartiesThen(After(states[n].log), more, tx);
      PartiesOf(states[n], calls[n], more, tx);
      assert calls == calls[..n] + [calls[n]];
    }
  }

  lemma NoParties(s: State, was: Key -> Option<Row>, tx: TxId)
    requires AtCheckpoint(s, was)
    ensures var log := After(s.log); log == [] && !Started(log, tx) && tx !in Committed(log) && tx !in Aborted(log)
  {
  }

  /** Recovery takes for unfinished exactly those who still run. */
  lemma LosersByCalls(capacity: nat, calls: seq<Call>, states: seq<State>, was: Key -> Option<Row>, tx: TxId)
    requires IsHistory(capacity, calls, states, was) && Disciplined(capacity, calls, states)
    ensures tx in Losing(After(states[|calls|].log)) <==> StillRuns(calls, tx)
  {
    hide Next, Disciplined, After, Started, Committed, Aborted, Ended, Unfinished;
    HistoryInv(capacity, calls, states, was);
    PartiesByCalls(capacity, calls, states, was, tx);
    LosersAre(After(states[|calls|].log), tx);
    EndsOnce(After(states[|calls|].log), tx);
  }

  // ---- what was changed ----

  lemma OperationOf(s: State, c: Call, more: Log, k: Key)
    requires AddedBy(s, c, more)
    ensures Changes(s, c, k) ==>
              && |more| == 1 && OpOn(more[0], k) && more[0].tx == c.request.tx
              && more[0].after == (if c.request.Write? then Some(c.request.row) else None)
    ensures !Changes(s, c, k) ==> forall e | e in more :: !OpOn(e, k)
  {
    hide See, Hidden;
  }

  lemma {:induction false} ReplayThen(log: Log, more: Log, txs: set<TxId>, k: Key, base: Option<Row>)
    requires forall e | e in more :: !OpOn(e, k)
    ensures ReplayOf(log + more, txs, k, base) == ReplayOf(log, txs, k, base)
    decreases |more|
  {
    if more == [] {
      assert log + more == log;
    } else {
      var rest, whole := more[..|more| - 1], log + more;
      assert whole[..|whole| - 1] == log + rest && more[|more| - 1] in more;
      ReplayThen(log, rest, txs, k, base);
    }
  }

  lemma {:induction false} ReplayByCalls(capacity: nat, calls: seq<Call>, states: seq<State>, was: Key -> Option<Row>,
      all: seq<Call>, txs: set<TxId>, k: Key)
    requires IsHistory(capacity, calls, states, was) && forall tx :: tx in txs <==> Finish(tx) in all
    ensures ReplayOf(After(states[|calls|].log), txs, k, was(k)) == Value(calls, states, all, k, was(k))
    decreases |calls|
  {
    hide Next, After, AddedBy, Changes, OpOn;
    if calls == [] {
      NoParties(states[0], was, 0);
    } else {
      var n := |calls| - 1;
      HistoryPrefix(capacity, calls, states, was);
      ReplayByCalls(capacity, calls[..n], states[..n + 1], was, all, txs, k);
      var log := After(states[n].log);
      var more := Grows(capacity, states[n], calls[n], states[n + 1]);
      OperationOf(states[n], calls[n], more, k);
      if Changes(states[n], calls[n], k) {
        assert (log + more)[..|log|] == log && (log + more)[|log|] == more[0];
      } else {
        ReplayThen(log, more, txs, k, was(k));
      }
    }
  }

  ghost predicate WrittenBy(log: Log, k: Key, tx: TxId) {
    exists i | 0 <= i < |log| :: OpOn(log[i], k) && log[i].tx == tx
  }

  lemma WrittenThen(log: Log, more: Log, k: Key, tx: TxId)
    ensures WrittenBy(log + more, k, tx) <==> WrittenBy(log, k, tx) || WrittenBy(more, k, tx)
  {
    var whole := log + more;
    if WrittenBy(log, k, tx) {
      var i :| 0 <= i < |log| && OpOn(log[i], k) && log[i].tx == tx;
      assert OpOn(whole[i], k) && whole[i].tx == tx;
    }
    if WrittenBy(more, k, tx) {
      var i :| 0 <= i < |more| && OpOn(more[i], k) && more[i].tx == tx;
      assert OpOn(whole[|log| + i], k) && whole[|log| + i].tx == tx;
    }
  }

  lemma ChangedThen(calls: seq<Call>, states: seq<State>, k: Key, tx: TxId)
    requires |states| == |calls| + 1 && calls != []
    ensures var n := |calls| - 1;
            ChangedBy(calls, states, k, tx)
            <==> ChangedBy(calls[..n], states[..n + 1], k, tx) || (Changes(states[n], calls[n], k) && calls[n].request.tx == tx)
  {
    hide See;
    var n := |calls| - 1;
    var before, were := calls[..n], states[..n + 1];
    assert forall i | 0 <= i < n :: before[i] == calls[i] && were[i] == states[i];
    if ChangedBy(before, were, k, tx) {
      var i :| 0 <= i < n && Changes(were[i], before[i], k) && before[i].request.tx == tx;
      assert Changes(states[i], calls[i], k);
    }
  }

  lemma {:induction false} WritersByCalls(capacity: nat, calls: seq<Call>, states: seq<State>, was: Key -> Option<Row>, k: Key, tx: TxId)
    requires IsHistory(capacity, calls, states, was)
    ensures WrittenBy(After(states[|calls|].log), k, tx) <==> ChangedBy(calls, states, k, tx)
    decreases |calls|
  {
    hide Next, After, AddedBy, Changes, OpOn;
    if calls == [] {
      NoParties(states[0], was, 0);
    } else {
      var n := |calls| - 1;
      HistoryPrefix(capacity, calls, states, was);
      WritersByCalls(capacity, calls[..n], states[..n + 1], was, k, tx);
      var more := Grows(capacity, states[n], calls[n], states[n + 1]);
      WrittenThen(After(states[n].log), more, k, tx);
      ChangedThen(calls, states, k, tx);
      OperationOf(states[n], calls[n], more, k);
      if Changes(states[n], calls[n], k) {
        assert more[0] in more;
      } else {
        assert forall i | 0 <= i < |more| :: more[i] in more;
      }
    }
  }

  // ---- the theorems ----

  /** While the engine runs: under a key that no running transaction changed, one sees the value at the checkpoint
      with the changes of those who finished, in the order of the calls. */
  lemma ShownByCalls(capacity: nat, calls: seq<Call>, states: seq<State>, was: Key -> Option<Row>, k: Key)
    requires IsHistory(capacity, calls, states, was) && Disciplined(capacity, calls, states)
    requires forall tx | ChangedBy(calls, states, k, tx) :: !StillRuns(calls, tx)
    ensures See(states[|calls|], k) == Value(calls, states, calls, k, was(k))
  {
    hide Next, Disciplined, After, Committed, Losing, See, ChangedBy, StillRuns;
    var log := After(states[|calls|].log);
    forall tx ensures tx in Committed(log) <==> Finish(tx) in calls {
      PartiesByCalls(capacity, calls, states, was, tx);
    }
    ReplayByCalls(capacity, calls, states, was, calls, Committed(log), k);
    forall i | 0 <= i < |log| && OpOn(log[i], k) ensures log[i].tx !in Losing(log) {
      assert WrittenBy(log, k, log[i].tx);
      WritersByCalls(capacity, calls, states, was, k, log[i].tx);
      LosersByCalls(capacity, calls, states, was, log[i].tx);
    }
    FirstInFinds(log, Losing(log), k);
    RunsShowCommitted(capacity, calls, states, was, k);
  }

  /** After a crash at any moment recovery gives a key the value at the checkpoint with the changes of those who
      finished, exactly if it does not take the row out of the buffer over one on disk. */
  lemma RecoveredByCalls(capacity: nat, calls: seq<Call>, states: seq<State>, was: Key -> Option<Row>, k: Key)
    requires IsHistory(capacity, calls, states, was) && Disciplined(capacity, calls, states)
    ensures var s := states[|calls|];
            Lookup(s.disk, Recovered(map[], s.log), k) == Value(calls, states, calls, k, was(k))
            <==> !(Pops(s.log, k) && OnDisk(s.disk, k).Some?)
  {
    hide Next, Disciplined, After, Committed, Pops, OnDisk, Lookup;
    var log := After(states[|calls|].log);
    forall tx ensures tx in Committed(log) <==> Finish(tx) in calls {
      PartiesByCalls(capacity, calls, states, was, tx);
    }
    ReplayByCalls(capacity, calls, states, was, calls, Committed(log), k);
    RunsRecoverIff(capacity, calls, states, was, k);
  }
}
