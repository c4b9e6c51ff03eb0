/** Runs of the whole engine after a checkpoint: transactions begin, ask, finish and are rolled back, the
    buffer evicts and flushes as it likes, and at some point all is lost but the disk and the log. */
module RecoveryRuns {
  import opened Wrappers
  import opened BufferPool
  import opened WriteAheadLog
  import opened Recovery
  import opened RecoverySafety
  import opened BufferSteps

  datatype Call = Ask(request: Request) | Begin(tx: TxId) | Finish(tx: TxId) | Rollback(tx: TxId)

  /** What a rollback leaves: the abort and the compensations in the log, and under each key the first
      before-image, or what the disk has if there is none; then everything is flushed. */
  ghost predicate RolledBack(capacity: nat, s: State, tx: TxId, s': State) {
    var log := s.log + [Lifecycle(tx, Abort)];
    && Good(s'.disk, s'.buffer) && s'.disk.Keys == s.disk.Keys
    && s'.log == log + Compensations(SinceStart(log, tx))
    && (forall k :: OnDisk(s'.disk, k) == See(s', k))
    && forall k :: UndoneIn(capacity, s, log, tx, s', k)
  }

  ghost predicate UndoneIn(capacity: nat, s: State, log: Log, tx: TxId, s': State, k: Key) {
    var last := LastUndone(log, k, {tx});
    if last.None? then See(s', k) == See(s, k)
    else if last.value.before.Some? then See(s', k) == last.value.before
    else Room(s.buffer, log, capacity) ==> See(s', k) == OnDisk(s.disk, k)
  }

  ghost predicate Next(capacity: nat, s: State, c: Call, s': State) {
    match c
    case Ask(r) => Sensible(r, s.disk) && Step(s, r, s')
    case Begin(tx) => s' == s.(log := s.log + [Lifecycle(tx, Start)])
    case Finish(tx) => s' == s.(log := s.log + [Lifecycle(tx, Commit)])
    case Rollback(tx) => RolledBack(capacity, s, tx, s')
  }

  // ---- what is asked of the callers ----

  ghost predicate Running(log: Log, tx: TxId) {
    Started(log, tx) && !Ended(log, tx)
  }

  /** Strict locking: while a transaction that wrote a key is running, no other writes it. */
  ghost predicate Unlocked(log: Log, tx: TxId, key: Key) {
    forall e | e in log && OpOn(e, key) && e.tx != tx :: !Running(log, e.tx)
  }

  ghost predicate Permitted(s: State, c: Call) {
    var log := After(s.log);
    match c
    case Ask(Write(tx, key, _)) => Running(log, tx) && Unlocked(log, tx, key)
    case Ask(Delete(tx, key, _)) => Running(log, tx) && Unlocked(log, tx, key)
    case Ask(_) => true
    case Begin(tx) => !Started(log, tx)
    case Finish(tx) => Running(log, tx)
    case Rollback(tx) => Running(log, tx)
  }

  /** Requests tell what one saw; rows first inserted by a transaction rolled back are not on disk yet. */
  ghost predicate Clean(capacity: nat, s: State, c: Call) {
    match c
    case Ask(r) => BufferSteps.Clean(s, r)
    case Begin(_) => true
    case Finish(_) => true
    case Rollback(tx) =>
      var log := s.log + [Lifecycle(tx, Abort)];
      forall k :: InsertedFirst(log, tx, k) ==> Room(s.buffer, log, capacity) && OnDisk(s.disk, k).None?
  }

  ghost predicate InsertedFirst(log: Log, tx: TxId, k: Key) {
    LastUndone(log, k, {tx}).Some? && LastUndone(log, k, {tx}).value.before.None?
  }

  /** A checkpoint with nothing going on: the disk shows all one sees. */
  ghost predicate AtCheckpoint(s: State, was: Key -> Option<Row>) {
    && Good(s.disk, s.buffer) && After(s.log) == [] && Ongoing(s.log) == {}
    && forall k :: See(s, k) == OnDisk(s.disk, k) == was(k)
  }

  ghost predicate IsHistory(capacity: nat, calls: seq<Call>, states: seq<State>, was: Key -> Option<Row>) {
    && |states| == |calls| + 1 && AtCheckpoint(states[0], was)
    && forall i | 0 <= i < |calls| :: Next(capacity, states[i], calls[i], states[i + 1])
  }

  ghost predicate Disciplined(capacity: nat, calls: seq<Call>, states: seq<State>)
    requires |states| == |calls| + 1
  {
    forall i | 0 <= i < |calls| :: Permitted(states[i], calls[i]) && Clean(capacity, states[i], calls[i])
  }

  // ---- the invariant ----

  function Losing(log: Log): set<TxId> {
    Unfinished(log, {})
  }

  /** One key: without an unfinished writer one sees the committed value; else its first before-image is that
      value, and one sees what the writer made of it. */
  ghost predicate KeyInv(s: State, log: Log, k: Key, was: Option<Row>) {
    var first, committed := FirstIn(log, Losing(log), k), ReplayOf(log, Committed(log), k, was);
    if first.None? then See(s, k) == committed
    else
      && first.value.before == committed
      && See(s, k) == ReplayOf(log, Committed(log) + {first.value.tx}, k, was)
      && OneWriter(log, Losing(log), k, first.value.tx)
  }

  ghost predicate OneWriter(log: Log, txs: set<TxId>, k: Key, tx: TxId) {
    forall i | 0 <= i < |log| && OpOn(log[i], k) && log[i].tx in txs :: log[i].tx == tx
  }

  /** A key nothing of which is redone or undone has its old value on disk. */
  ghost predicate DiskInv(s: State, log: Log, k: Key, was: Option<Row>) {
    FirstIn(log, Losing(log), k).None? && LastRedone(log, k, Aborted(log)).None? ==> OnDisk(s.disk, k) == was
  }

  ghost predicate Inv(s: State, was: Key -> Option<Row>) {
    && Good(s.disk, s.buffer) && Ongoing(s.log) == {} && Orderly(After(s.log))
    && forall k :: KeyInv(s, After(s.log), k, was(k)) && DiskInv(s, After(s.log), k, was(k))
  }

  // ---- parts of a log that a change of the transactions considered does not touch ----

  lemma {:induction false} ReplayOfSame(log: Log, a: set<TxId>, b: set<TxId>, k: Key, was: Option<Row>)
    requires forall i | 0 <= i < |log| && OpOn(log[i], k) :: log[i].tx in a <==> log[i].tx in b
    ensures ReplayOf(log, a, k, was) == ReplayOf(log, b, k, was)
  {
    if log != [] {
      ReplayOfSame(log[..|log| - 1], a, b, k, was);
    }
  }

  lemma {:induction false} LastRedoneSame(log: Log, k: Key, a: set<TxId>, b: set<TxId>)
    requires forall i | 0 <= i < |log| && OpOn(log[i], k) :: log[i].tx in a <==> log[i].tx in b
    ensures LastRedone(log, k, a) == LastRedone(log, k, b)
  {
    if log != [] {
      LastRedoneSame(log[..|log| - 1], k, a, b);
    }
  }

  /** Who loses, has committed or aborted after one more entry. */
  lemma PartiesMore(log: Log, e: Entry)
    ensures Losing(log + [e]) == if !e.Lifecycle? then Losing(log) else if e.action == Start then Losing(log) + {e.tx} else Losing(log) - {e.tx}
    ensures Committed(log + [e]) == if e.Lifecycle? && e.action == Commit then Committed(log) + {e.tx} else Committed(log)
    ensures Aborted(log + [e]) == if e.Lifecycle? && e.action == Abort then Aborted(log) + {e.tx} else Aborted(log)
  {
    var more := log + [e];
    assert more[..|more| - 1] == log;
    var c := if e.Lifecycle? && e.action == Commit then Committed(log) + {e.tx} else Committed(log);
    var a := if e.Lifecycle? && e.action == Abort then Aborted(log) + {e.tx} else Aborted(log);
    forall tx ensures (tx in Committed(more) <==> tx in c) && (tx in Aborted(more) <==> tx in a) {
      InCommitted(more, tx);
    }
    assert Committed(more) == c;
    assert Aborted(more) == a;
  }

  /** No entry but a checkpoint changes where recovery starts. */
  lemma AfterMore(log: Log, more: Log)
    requires forall i | 0 <= i < |more| :: !more[i].Checkpoint?
    ensures Since(log + more) == Since(log) && After(log + more) == After(log) + more && Ongoing(log + more) == Ongoing(log)
  {
    hide Since;
    SinceMore(log, more);
    var n := Since(log);
    assert (log + more)[n..] == log[n..] + more;
    assert n > 0 ==> (log + more)[n - 1] == log[n - 1];
  }

  lemma {:induction false} SinceMore(log: Log, more: Log)
    requires forall i | 0 <= i < |more| :: !more[i].Checkpoint?
    ensures Since(log + more) == Since(log)
    decreases |more|
  {
    if more == [] {
      assert log + more == log;
    } else {
      var rest := more[..|more| - 1];
      assert (log + more)[..|log + more| - 1] == log + rest;
      SinceMore(log, rest);
    }
  }

  lemma RunningLoses(log: Log, tx: TxId)
    requires Orderly(log) && Running(log, tx)
    ensures tx in Losing(log) && tx !in Committed(log) && tx !in Aborted(log)
  {
    LosersAre(log, tx);
    EndsOnce(log, tx);
  }

  lemma UntouchedIsOld(s: State, log: Log, k: Key, was: Option<Row>)
    requires Orderly(log) && KeyInv(s, log, k, was)
    requires FirstIn(log, Losing(log), k).None? && LastRedone(log, k, Aborted(log)).None?
    ensures See(s, k) == was
  {
    OrderlyParts(log);
    RedoneIsCommitted(log, Losing(log), Aborted(log), Committed(log), k, was);
  }

  // ---- each call keeps the invariant, one key at a time ----

  /** The disk follows; what one sees and the log stay. */
  lemma SilentKeeps(s: State, s': State, log: Log, k: Key, was: Option<Row>)
    requires Orderly(log) && KeyInv(s, log, k, was) && DiskInv(s, log, k, was) && See(s', k) == See(s, k)
    requires OnDisk(s'.disk, k) == OnDisk(s.disk, k) || OnDisk(s'.disk, k) == See(s, k)
    ensures KeyInv(s', log, k, was) && DiskInv(s', log, k, was)
  {
    hide See;
    if FirstIn(log, Losing(log), k).None? && LastRedone(log, k, Aborted(log)).None? {
      UntouchedIsOld(s, log, k, was);
    }
  }

  lemma OperationKeeps(s: State, s': State, log: Log, e: Entry, k: Key, was: Option<Row>)
    requires Orderly(log) && KeyInv(s, log, k, was) && DiskInv(s, log, k, was)
    requires Effective(e) && Running(log, e.tx) && Unlocked(log, e.tx, e.key)
    requires e.before == See(s, e.key) && See(s', k) == if k == e.key then e.after else See(s, k)
    requires OnDisk(s'.disk, k) == OnDisk(s.disk, k) || OnDisk(s'.disk, k) == See(s, k)
    ensures KeyInv(s', log + [e], k, was) && DiskInv(s', log + [e], k, was)
  {
    hide See, Committed, Aborted, Started, Ended, Losing, Orderly;
    var more, first := log + [e], FirstIn(log, Losing(log), k);
    assert more[..|log|] == log && more[|log|] == e;
    PartiesMore(log, e);
    RunningLoses(log, e.tx);
    if k == e.key {
      if first.Some? && first.value.tx != e.tx {
        assert first.value in log && OpOn(first.value, k);
        LoserRuns(log, first.value.tx);
      }
      if first.None? {
        FirstInFinds(log, Losing(log), k);
      }
      assert OneWriter(more, Losing(log), k, e.tx);
    } else {
      if first.Some? {
        assert OneWriter(more, Losing(log), k, first.value.tx);
      } else if LastRedone(log, k, Aborted(log)).None? {
        UntouchedIsOld(s, log, k, was);
      }
    }
  }

  lemma LoserRuns(log: Log, tx: TxId)
    requires Orderly(log) && tx in Losing(log)
    ensures Running(log, tx)
  {
    LosersAre(log, tx);
  }

  lemma BeginKeeps(s: State, s': State, log: Log, tx: TxId, k: Key, was: Option<Row>)
    requires Orderly(log) && KeyInv(s, log, k, was) && DiskInv(s, log, k, was)
    requires !Started(log, tx) && s'.disk == s.disk && s'.buffer == s.buffer
    ensures KeyInv(s', log + [Lifecycle(tx, Start)], k, was) && DiskInv(s', log + [Lifecycle(tx, Start)], k, was)
  {
    hide Committed, Aborted, Started, Ended, Losing, Orderly;
    var e := Lifecycle(tx, Start);
    var more := log + [e];
    assert more[..|log|] == log && more[|log|] == e;
    PartiesMore(log, e);
    forall i | 0 <= i < |log| && OpOn(log[i], k) ensures log[i].tx in Losing(log) + {tx} <==> log[i].tx in Losing(log) {
      ActsStarted(log, i);
    }
    FirstInSame(log, Losing(log) + {tx}, Losing(log), k);
    if FirstIn(log, Losing(log), k).Some? {
      assert OneWriter(more, Losing(more), k, FirstIn(log, Losing(log), k).value.tx);
    }
  }

  /** What a transaction that ends did to a key: all the unfinished operations on it, or none. */
  lemma AllOrNothing(s: State, log: Log, tx: TxId, k: Key, was: Option<Row>)
    requires KeyInv(s, log, k, was) && tx in Losing(log)
    ensures var first := FirstIn(log, Losing(log), k);
            if first.Some? && first.value.tx == tx
            then FirstIn(log, {tx}, k) == first && FirstIn(log, Losing(log) - {tx}, k) == None
            else FirstIn(log, {tx}, k) == None && FirstIn(log, Losing(log) - {tx}, k) == first
                 && forall i | 0 <= i < |log| && OpOn(log[i], k) :: log[i].tx != tx
  {
    hide Committed, Losing, See;
    var first := FirstIn(log, Losing(log), k);
    FirstInFinds(log, Losing(log), k);
    FirstInFinds(log, {tx}, k);
    FirstInFinds(log, Losing(log) - {tx}, k);
    if first.Some? && first.value.tx == tx {
      FirstInSame(log, Losing(log), {tx}, k);
    } else {
      FirstInSame(log, Losing(log) - {tx}, Losing(log), k);
    }
  }

  lemma FinishKeeps(s: State, s': State, log: Log, tx: TxId, k: Key, was: Option<Row>)
    requires Orderly(log) && KeyInv(s, log, k, was) && DiskInv(s, log, k, was)
    requires Running(log, tx) && s'.disk == s.disk && s'.buffer == s.buffer
    ensures KeyInv(s', log + [Lifecycle(tx, Commit)], k, was) && DiskInv(s', log + [Lifecycle(tx, Commit)], k, was)
  {
    hide Committed, Aborted, Started, Ended, Losing, Orderly;
    var e := Lifecycle(tx, Commit);
    var more, first := log + [e], FirstIn(log, Losing(log), k);
    assert more[..|log|] == log && more[|log|] == e;
    PartiesMore(log, e);
    RunningLoses(log, tx);
    AllOrNothing(s, log, tx, k, was);
    if first.Some? && first.value.tx == tx {
      FinishedIsRedone(log, tx, k);
    } else {
      ReplayOfSame(log, Committed(log) + {tx}, Committed(log), k, was);
      if first.Some? {
        ReplayOfSame(log, Committed(log) + {tx} + {first.value.tx}, Committed(log) + {first.value.tx}, k, was);
        assert OneWriter(more, Losing(more), k, first.value.tx);
      }
    }
  }

  lemma FinishedIsRedone(log: Log, tx: TxId, k: Key)
    requires FirstIn(log, {tx}, k).Some? && tx !in Aborted(log)
    ensures LastRedone(log, k, Aborted(log)).Some?
  {
    var e := FirstIn(log, {tx}, k).value;
    RedoneFinds(log, e, k, Aborted(log));
  }

  lemma {:induction false} RedoneFinds(log: Log, e: Entry, k: Key, aborted: set<TxId>)
    requires e in log && OpOn(e, k) && e.tx !in aborted
    ensures LastRedone(log, k, aborted).Some?
  {
    if e != log[|log| - 1] {
      assert log == log[..|log| - 1] + [log[|log| - 1]];
      RedoneFinds(log[..|log| - 1], e, k, aborted);
    }
  }

  /** What is seen after the abort is the committed value, under every key. */
  lemma AbortKeeps(s: State, s': State, log: Log, tx: TxId, k: Key, was: Option<Row>)
    requires Orderly(log) && KeyInv(s, log, k, was) && Running(log, tx)
    requires var last := FirstIn(log, {tx}, k); See(s', k) == if last.Some? then last.value.before else See(s, k)
    requires OnDisk(s'.disk, k) == See(s', k) && Orderly(log + [Lifecycle(tx, Abort)])
    ensures KeyInv(s', log + [Lifecycle(tx, Abort)], k, was) && DiskInv(s', log + [Lifecycle(tx, Abort)], k, was)
  {
    hide See, Committed, Aborted, Started, Ended, Losing, Orderly;
    var e := Lifecycle(tx, Abort);
    var more, first := log + [e], FirstIn(log, Losing(log), k);
    assert more[..|log|] == log && more[|log|] == e;
    PartiesMore(log, e);
    RunningLoses(log, tx);
    AllOrNothing(s, log, tx, k, was);
    if first.Some? && first.value.tx != tx {
      assert OneWriter(more, Losing(more), k, first.value.tx);
    }
    if FirstIn(more, Losing(more), k).None? && LastRedone(more, k, Aborted(more)).None? {
      UntouchedIsOld(s', more, k, was);
    }
  }

  lemma CompensationKeeps(s: State, log: Log, e: Entry, k: Key, was: Option<Row>)
    requires e.Compensation? && KeyInv(s, log, k, was) && DiskInv(s, log, k, was)
    ensures KeyInv(s, log + [e], k, was) && DiskInv(s, log + [e], k, was)
  {
    hide See, Committed, Aborted, Losing;
    var more, first := log + [e], FirstIn(log, Losing(log), k);
    assert more[..|log|] == log && more[|log|] == e;
    PartiesMore(log, e);
    if first.Some? {
      assert OneWriter(more, Losing(more), k, first.value.tx);
    }
  }

  lemma {:induction false} CompensationsKeep(s: State, log: Log, cs: Log, was: Key -> Option<Row>)
    requires forall i | 0 <= i < |cs| :: cs[i].Compensation?
    requires Orderly(log) && forall k :: KeyInv(s, log, k, was(k)) && DiskInv(s, log, k, was(k))
    ensures Orderly(log + cs) && forall k :: KeyInv(s, log + cs, k, was(k)) && DiskInv(s, log + cs, k, was(k))
  {
    hide KeyInv, DiskInv;
    if cs == [] {
      assert log + cs == log;
    } else {
      var n := |cs| - 1;
      CompensationsKeep(s, log, cs[..n], was);
      assert log + cs == (log + cs[..n]) + [cs[n]] && ((log + cs[..n]) + [cs[n]])[..|log| + n] == log + cs[..n];
      forall k ensures KeyInv(s, log + cs, k, was(k)) && DiskInv(s, log + cs, k, was(k)) {
        CompensationKeeps(s, log + cs[..n], cs[n], k, was(k));
      }
    }
  }

  lemma {:induction false} OnlyCompensations(operations: Log)
    requires forall e | e in operations :: Effective(e)
    ensures forall i | 0 <= i < |Compensations(operations)| :: Compensations(operations)[i].Compensation?
    decreases operations
  {
    if operations != [] {
      OnlyCompensations(operations[1..]);
    }
  }

  lemma OrderlyMore(log: Log, e: Entry)
    ensures Orderly(log + [e]) <==> Orderly(log) && Fits(log, e)
  {
    assert (log + [e])[..|log|] == log;
  }

  /** A rollback undoes what the transaction did since the checkpoint, to its first operation under each key. */
  lemma RollbackUndoes(log: Log, tx: TxId, k: Key)
    requires Orderly(After(log)) && Running(After(log), tx)
    ensures LastUndone(log + [Lifecycle(tx, Abort)], k, {tx}) == FirstIn(After(log), {tx}, k)
  {
    var after, e := After(log), Lifecycle(tx, Abort);
    var more := after + [e];
    assert log == log[..Since(log)] + after;
    assert log + [e] == log[..Since(log)] + more && more[..|after|] == after && more[|after|] == e;
    OrderlyMore(after, e);
    forall t ensures t in {tx} <==> t in {tx} && Started(more, t) {
      StartedMore(more, t);
    }
    UndoneIsFirst(log[..Since(log)], more, {tx}, {tx}, k);
  }

  lemma AskKeeps(s: State, r: Request, s': State, was: Key -> Option<Row>)
    requires Inv(s, was) && Sensible(r, s.disk) && Step(s, r, s') && Permitted(s, Ask(r)) && BufferSteps.Clean(s, r)
    ensures Inv(s', was)
  {
    hide KeyInv, DiskInv, Orderly, Since, Ongoing, Losing, Good, Running, Unlocked, OnDisk, Lookup;
    var log, more := After(s.log), Entries(s, r);
    EntriesClean(s, r);
    AfterMore(s.log, more);
    if more == [] {
      assert log + more == log;
      forall k ensures KeyInv(s', log, k, was(k)) && DiskInv(s', log, k, was(k)) {
        SilentlySeen(s, r, s', k);
        SilentKeeps(s, s', log, k, was(k));
      }
    } else {
      var e := more[0];
      OrderlyMore(log, e);
      Runs(log, e);
      forall k ensures KeyInv(s', log + [e], k, was(k)) && DiskInv(s', log + [e], k, was(k)) {
        OperationKeeps(s, s', log, e, k, was(k));
      }
    }
  }

  lemma Runs(log: Log, e: Entry)
    requires e.Operation? && Effective(e) && Running(log, e.tx)
    ensures Fits(log, e)
  {
  }

  lemma RollbackKeeps(capacity: nat, s: State, tx: TxId, s': State, was: Key -> Option<Row>)
    requires Inv(s, was) && RolledBack(capacity, s, tx, s') && Permitted(s, Rollback(tx)) && Clean(capacity, s, Rollback(tx))
    ensures Inv(s', was)
  {
    hide KeyInv, DiskInv, Orderly, Since, Ongoing, Losing, Good, Started, Ended, OnDisk, Lookup, Room, SinceStart;
    var log, e, whole := After(s.log), Lifecycle(tx, Abort), s.log + [Lifecycle(tx, Abort)];
    var cs := Compensations(SinceStart(whole, tx));
    OnlyCompensations(SinceStart(whole, tx));
    AfterMore(s.log, [e]);
    AfterMore(whole, cs);
    OrderlyMore(log, e);
    assert Orderly(log + [e]);
    forall k ensures KeyInv(s', log + [e], k, was(k)) && DiskInv(s', log + [e], k, was(k)) {
      RollbackUndoes(s.log, tx, k);
      assert UndoneIn(capacity, s, whole, tx, s', k);
      assert InsertedFirst(whole, tx, k) ==> Room(s.buffer, whole, capacity) && OnDisk(s.disk, k).None?;
      AbortKeeps(s, s', log, tx, k, was(k));
    }
    CompensationsKeep(s', log + [e], cs, was);
  }

  lemma NextKeeps(capacity: nat, s: State, c: Call, s': State, was: Key -> Option<Row>)
    requires Inv(s, was) && Next(capacity, s, c, s') && Permitted(s, c) && Clean(capacity, s, c)
    ensures Inv(s', was)
  {
    hide KeyInv, DiskInv, Orderly, Since, Ongoing, Losing, Good, Started, Ended, OnDisk, Lookup, RolledBack, Step;
    var log := After(s.log);
    match c {
      case Ask(r) =>
        AskKeeps(s, r, s', was);
      case Begin(tx) =>
        AfterMore(s.log, [Lifecycle(tx, Start)]);
        OrderlyMore(log, Lifecycle(tx, Start));
        forall k ensures KeyInv(s', log + [Lifecycle(tx, Start)], k, was(k)) && DiskInv(s', log + [Lifecycle(tx, Start)], k, was(k)) {
          BeginKeeps(s, s', log, tx, k, was(k));
        }
      case Finish(tx) =>
        AfterMore(s.log, [Lifecycle(tx, Commit)]);
        OrderlyMore(log, Lifecycle(tx, Commit));
        forall k ensures KeyInv(s', log + [Lifecycle(tx, Commit)], k, was(k)) && DiskInv(s', log + [Lifecycle(tx, Commit)], k, was(k)) {
          FinishKeeps(s, s', log, tx, k, was(k));
        }
      case Rollback(tx) =>
        RollbackKeeps(capacity, s, tx, s', was);
    }
  }

  lemma CheckpointInv(s: State, was: Key -> Option<Row>)
    requires AtCheckpoint(s, was)
    ensures Inv(s, was)
  {
  }

  lemma HistoryPrefix(capacity: nat, calls: seq<Call>, states: seq<State>, was: Key -> Option<Row>)
    requires calls != [] && IsHistory(capacity, calls, states, was)
    ensures var n := |calls| - 1;
            && IsHistory(capacity, calls[..n], states[..n + 1], was) && Next(capacity, states[n], calls[n], states[n + 1])
            && (Disciplined(capacity, calls, states) ==>
                  Disciplined(capacity, calls[..n], states[..n + 1]) && Permitted(states[n], calls[n]) && Clean(capacity, states[n], calls[n]))
  {
    hide Next, AtCheckpoint, Permitted, Clean;
    var n := |calls| - 1;
    assert forall i | 0 <= i < n :: calls[..n][i] == calls[i];
    assert forall i | 0 <= i < n + 1 :: states[..n + 1][i] == states[i];
    if Disciplined(capacity, calls, states) {
      forall i | 0 <= i < n ensures Permitted(states[..n + 1][i], calls[..n][i]) && Clean(capacity, states[..n + 1][i], calls[..n][i]) {
        assert Permitted(states[i], calls[i]);
      }
    }
  }

  lemma {:induction false} HistoryInv(capacity: nat, calls: seq<Call>, states: seq<State>, was: Key -> Option<Row>)
    requires IsHistory(capacity, calls, states, was) && Disciplined(capacity, calls, states)
    ensures Inv(states[|calls|], was)
  {
    hide Inv, Next, AtCheckpoint;
    if calls == [] {
      CheckpointInv(states[0], was);
    } else {
      var n := |calls| - 1;
      HistoryPrefix(capacity, calls, states, was);
      HistoryInv(capacity, calls[..n], states[..n + 1], was);
      NextKeeps(capacity, states[n], calls[n], states[n + 1], was);
    }
  }

  // ---- what follows ----

  /** While the engine runs: under a key no unfinished transaction wrote, one sees the checkpoint with the
      committed operations applied in log order, whatever was rolled back. */
  lemma RunsShowCommitted(capacity: nat, calls: seq<Call>, states: seq<State>, was: Key -> Option<Row>, k: Key)
    requires IsHistory(capacity, calls, states, was) && Disciplined(capacity, calls, states)
    ensures var s := states[|calls|];
            var log := After(s.log);
            FirstIn(log, Losing(log), k).None? ==> See(s, k) == ReplayOf(log, Committed(log), k, was(k))
  {
    HistoryInv(capacity, calls, states, was);
  }

  /** After a crash at any moment, with whatever had been flushed and evicted: recovery gives a key the
      checkpoint with the committed operations applied in log order, exactly if it does not take the row
      out of the buffer over one on disk. */
  lemma RunsRecoverIff(capacity: nat, calls: seq<Call>, states: seq<State>, was: Key -> Option<Row>, k: Key)
    requires IsHistory(capacity, calls, states, was) && Disciplined(capacity, calls, states)
    ensures var s := states[|calls|];
            Lookup(s.disk, Recovered(map[], s.log), k) == ReplayOf(After(s.log), Committed(After(s.log)), k, was(k))
            <==> !(Pops(s.log, k) && OnDisk(s.disk, k).Some?)
  {
    hide Since, Orderly, Committed, Aborted, Unfinished, Lookup, OnDisk;
    var s := states[|calls|];
    HistoryInv(capacity, calls, states, was);
    RecoversCommittedIff(s.disk, s.log, k, was(k));
    IntendedIsCommittedIff(s.log, k, was(k));
    assert KeyInv(s, After(s.log), k, was(k)) && DiskInv(s, After(s.log), k, was(k));
  }

  // ---- rollback to the start, without strict locking ----

  /** Nobody else writes the key or is rolled back over it, and what the transaction asks of it is clean. */
  ghost predicate LeavesTo(s: State, c: Call, tx: TxId, k: Key) {
    match c
    case Ask(r) => (r.Write? || r.Delete?) && r.key == k ==> r.tx == tx && BufferSteps.Clean(s, r)
    case Begin(t) => t != tx
    case Finish(_) => true
    case Rollback(t) => t != tx && LastUndone(s.log + [Lifecycle(t, Abort)], k, {t}).None?
  }

  ghost predicate Restorable(now: Option<Row>, post: Log, tx: TxId, k: Key, was: Option<Row>) {
    var first := FirstOp(post, tx, k);
    NoStart(post, tx) && if first.None? then now == was else first.value.before == was
  }

  lemma RestorableMore(now: Option<Row>, now': Option<Row>, post: Log, e: Entry, tx: TxId, k: Key, was: Option<Row>)
    requires Restorable(now, post, tx, k, was) && e != Lifecycle(tx, Start)
    requires if OpOn(e, k) && e.tx == tx then e.before == now else now' == now
    ensures Restorable(now', post + [e], tx, k, was)
  {
    assert (post + [e])[..|post|] == post;
  }

  lemma {:induction false} RestorableIdle(now: Option<Row>, post: Log, more: Log, tx: TxId, k: Key, was: Option<Row>)
    requires Restorable(now, post, tx, k, was) && forall i | 0 <= i < |more| :: more[i].Compensation?
    ensures Restorable(now, post + more, tx, k, was)
    decreases |more|
  {
    if more == [] {
      assert post + more == post;
    } else {
      var n := |more| - 1;
      RestorableIdle(now, post, more[..n], tx, k, was);
      assert post + more == (post + more[..n]) + [more[n]];
      RestorableMore(now, now, post + more[..n], more[n], tx, k, was);
    }
  }

  lemma RestorableNext(capacity: nat, s: State, c: Call, s': State, post: Log, tx: TxId, k: Key, was: Option<Row>) returns (more: Log)
    requires Good(s.disk, s.buffer) && Next(capacity, s, c, s') && LeavesTo(s, c, tx, k) && Restorable(See(s, k), post, tx, k, was)
    ensures Good(s'.disk, s'.buffer) && s'.log == s.log + more && Restorable(See(s', k), post + more, tx, k, was)
  {
    hide Good, Lookup, OnDisk, Restorable, SinceStart, LastUndone, DiskFollows;
    match c {
      case Ask(r) =>
        more := Entries(s, r);
        EntriesClean(s, r);
        if more == [] {
          SilentlySeen(s, r, s', k);
          assert post + more == post;
        } else {
          assert more == [more[0]];
          RestorableMore(See(s, k), See(s', k), post, more[0], tx, k, was);
        }
      case Begin(t) =>
        more := [Lifecycle(t, Start)];
        RestorableMore(See(s, k), See(s', k), post, more[0], tx, k, was);
      case Finish(t) =>
        more := [Lifecycle(t, Commit)];
        RestorableMore(See(s, k), See(s', k), post, more[0], tx, k, was);
      case Rollback(t) =>
        var abort := Lifecycle(t, Abort);
        var operations := SinceStart(s.log + [abort], t);
        OnlyCompensations(operations);
        more := [abort] + Compensations(operations);
        assert UndoneIn(capacity, s, s.log + [abort], t, s', k);
        RestorableMore(See(s, k), See(s', k), post, abort, tx, k, was);
        RestorableIdle(See(s', k), post + [abort], Compensations(operations), tx, k, was);
        assert post + more == post + [abort] + Compensations(operations);
        assert s.log + more == s.log + [abort] + Compensations(operations);
    }
  }

  lemma {:induction false} RestorableSince(capacity: nat, calls: seq<Call>, states: seq<State>, tx: TxId, k: Key) returns (post: Log)
    requires calls != [] && |states| == |calls| + 1 && calls[0] == Begin(tx) && Good(states[0].disk, states[0].buffer)
    requires forall i | 0 <= i < |calls| :: Next(capacity, states[i], calls[i], states[i + 1])
    requires forall i | 0 < i < |calls| :: LeavesTo(states[i], calls[i], tx, k)
    ensures var s := states[|calls|];
            && Good(s.disk, s.buffer) && s.log == states[0].log + [Lifecycle(tx, Start)] + post
            && Restorable(See(s, k), post, tx, k, See(states[0], k))
  {
    hide Good, Next, LeavesTo, Restorable, See;
    var n := |calls| - 1;
    if n == 0 {
      post := [];
      BegunIsRestorable(capacity, states[0], tx, states[1], k);
    } else {
      assert forall i | 0 <= i < n :: calls[..n][i] == calls[i];
      assert forall i | 0 <= i < n + 1 :: states[..n + 1][i] == states[i];
      post := RestorableSince(capacity, calls[..n], states[..n + 1], tx, k);
      var more := RestorableNext(capacity, states[n], calls[n], states[n + 1], post, tx, k, See(states[0], k));
      assert states[0].log + [Lifecycle(tx, Start)] + post + more == states[0].log + [Lifecycle(tx, Start)] + (post + more);
      post := post + more;
    }
  }

  lemma BegunIsRestorable(capacity: nat, s: State, tx: TxId, s': State, k: Key)
    requires Good(s.disk, s.buffer) && Next(capacity, s, Begin(tx), s')
    ensures Good(s'.disk, s'.buffer) && s'.log == s.log + [Lifecycle(tx, Start)] + [] && Restorable(See(s', k), [], tx, k, See(s, k))
  {
    assert s.log + [Lifecycle(tx, Start)] + [] == s.log + [Lifecycle(tx, Start)];
  }

  /** A transaction that begins, asks and is rolled back, among calls that leave one key to it: the key has
      again the value it had at the start, unless the first thing done to it was an insertion; then, if
      nothing is evicted on the way back, exactly if the disk had no such row. */
  lemma RollbackRestoresStart(capacity: nat, calls: seq<Call>, states: seq<State>, tx: TxId, k: Key)
    requires |calls| >= 2 && |states| == |calls| + 1 && Good(states[0].disk, states[0].buffer)
    requires calls[0] == Begin(tx) && calls[|calls| - 1] == Rollback(tx)
    requires forall i | 0 <= i < |calls| :: Next(capacity, states[i], calls[i], states[i + 1])
    requires forall i | 0 < i < |calls| - 1 :: LeavesTo(states[i], calls[i], tx, k)
    ensures var s, s' := states[|calls| - 1], states[|calls|];
            var log := s.log + [Lifecycle(tx, Abort)];
            if !InsertedFirst(log, tx, k) then See(s', k) == See(states[0], k)
            else Room(s.buffer, log, capacity) ==> (See(s', k) == See(states[0], k) <==> OnDisk(s.disk, k).None?)
  {
    hide Good, LeavesTo, See, OnDisk, Room, SinceStart;
    var n := |calls| - 1;
    assert forall i | 0 <= i < n :: calls[..n][i] == calls[i];
    assert forall i | 0 <= i < n + 1 :: states[..n + 1][i] == states[i];
    var s, s', abort := states[n], states[n + 1], Lifecycle(tx, Abort);
    var post := RestorableSince(capacity, calls[..n], states[..n + 1], tx, k);
    RestorableMore(See(s, k), See(s, k), post, abort, tx, k, See(states[0], k));
    assert s.log + [abort] == states[0].log + [Lifecycle(tx, Start)] + (post + [abort]);
    UndoneSinceStart(states[0].log, post + [abort], tx, k);
    assert Next(capacity, s, Rollback(tx), s');
    assert UndoneIn(capacity, s, s.log + [abort], tx, s', k);
  }

  // ---- one unclean call ----

  const ERASED := State(map["t" := []], map[TEN := Buffered(Some(OLD), false, true)], [Checkpoint({})])
  const ENTERED := ERASED.(log := [Checkpoint({})] + [Lifecycle(2, Start)])
  const REWRITTEN := State(map["t" := []], map[TEN := Buffered(Some(NEW), true, true)], [Checkpoint({})] + RENEWED)

  /** After a deletion, a flush and a checkpoint the row is gone from the disk, but its deletion is still
      buffered. One write over it, in a permitted run: recovery and rollback bring the deleted row back. */
  lemma WriteOverDeletion(was: Key -> Option<Row>) returns (calls: seq<Call>, states: seq<State>)
    requires forall k :: was(k) == None
    ensures IsHistory(5, calls, states, was) && calls == [Begin(2), Ask(Write(2, TEN, NEW))]
    ensures forall i | 0 <= i < |calls| :: Permitted(states[i], calls[i]) && (Clean(5, states[i], calls[i]) <==> i != 1)
    ensures var s := states[2];
            && ReplayOf(After(s.log), Committed(After(s.log)), TEN, was(TEN)) == None
            && Lookup(s.disk, Recovered(map[], s.log), TEN) == Some(OLD)
            && Lookup(s.disk, UndoAll(s.buffer, s.log, {2}), TEN) == Some(OLD)
  {
    hide AtCheckpoint, Next, Permitted, Recovered, UndoAll, ReplayOf, Committed, After, Lookup;
    calls, states := [Begin(2), Ask(Write(2, TEN, NEW))], [ERASED, ENTERED, REWRITTEN];
    FirstPart(was);
    SecondPart();
    DeletedRowComesBack();
    NothingOnDisk(was);
  }

  lemma NothingOnDisk(was: Key -> Option<Row>)
    requires forall k :: was(k) == None
    ensures was(TEN) == OnDisk(map["t" := []], TEN)
  {
  }

  lemma FirstPart(was: Key -> Option<Row>)
    requires forall k :: was(k) == None
    ensures AtCheckpoint(ERASED, was) && Permitted(ERASED, Begin(2)) && Next(5, ERASED, Begin(2), ENTERED)
  {
    SinceIs([], {}, []);
    assert [] + [Checkpoint({})] + [] == ERASED.log;
  }

  lemma SecondPart()
    ensures Permitted(ENTERED, Ask(Write(2, TEN, NEW))) && Next(5, ENTERED, Ask(Write(2, TEN, NEW)), REWRITTEN)
    ensures Hidden(ENTERED, TEN)
  {
    hide Step, Since, Lookup;
    SinceIs([], {}, [Lifecycle(2, Start)]);
    assert [] + [Checkpoint({})] + [Lifecycle(2, Start)] == ENTERED.log && After(ENTERED.log) == [Lifecycle(2, Start)];
    assert Starts(After(ENTERED.log)[0], 2);
    Rewriting();
  }

  lemma Rewriting()
    ensures Step(ENTERED, Write(2, TEN, NEW), REWRITTEN) && Hidden(ENTERED, TEN)
  {
    assert ENTERED.log + [OVERWRITING] == REWRITTEN.log;
    forall k ensures See(REWRITTEN, k) == SeenAfter(ENTERED, Write(2, TEN, NEW), k) {
    }
  }
}
