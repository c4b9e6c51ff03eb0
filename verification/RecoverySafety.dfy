/** Recovery against its purpose: the state of the checkpoint with the committed operations applied. */
module RecoverySafety {
  import opened Wrappers
  import opened BufferPool
  import opened WriteAheadLog
  import opened Recovery

  // ---- key by key, for any log and any disk ----

  function After(log: Log): Log {
    log[Since(log)..]
  }

  function Losers(log: Log): set<TxId> {
    Unfinished(After(log), Ongoing(log))
  }

  /** What recovery aims at: the value before the unfinished operations, or after the last other one, or
      the value at the checkpoint. */
  function Intended(log: Log, k: Key, was: Option<Row>): Option<Row> {
    var undone, redone := LastUndone(log, k, Losers(log)), LastRedone(After(log), k, Aborted(After(log)));
    if undone.Some? then undone.value.before else if redone.Some? then redone.value.after else was
  }

  /** The last thing recovery does with the key is to take its row out of the buffer. */
  predicate Pops(log: Log, k: Key) {
    var undone, redone := LastUndone(log, k, Losers(log)), LastRedone(After(log), k, Aborted(After(log)));
    if undone.Some? then undone.value.before.None? else redone.Some? && redone.value.after.None?
  }

  predicate Untouched(log: Log, k: Key) {
    LastUndone(log, k, Losers(log)).None? && LastRedone(After(log), k, Aborted(After(log))).None?
  }

  /** Whatever was flushed before the crash: recovery reaches its aim for a key exactly if the disk has no
      row where it takes one out of the buffer, and the old value where it does nothing. */
  lemma RecoversIff(d: Disk, log: Log, k: Key, was: Option<Row>)
    ensures Lookup(d, Recovered(map[], log), k) == Intended(log, k, was)
            <==> (Pops(log, k) ==> OnDisk(d, k).None?) && (Untouched(log, k) ==> OnDisk(d, k) == was)
    ensures Pops(log, k) ==> Lookup(d, Recovered(map[], log), k) == OnDisk(d, k)
  {
    var redone := RedoAll(map[], After(log), Aborted(After(log)));
    AfterUndo(d, redone, log, Losers(log), k);
    AfterRedo(d, map[], After(log), Aborted(After(log)), k);
  }

  // ---- what the aim means for a log the system writes ----

  predicate Starts(e: Entry, tx: TxId) {
    e == Lifecycle(tx, Start)
  }

  predicate Ends(e: Entry, tx: TxId) {
    e == Lifecycle(tx, Commit) || e == Lifecycle(tx, Abort)
  }

  predicate Started(log: Log, tx: TxId) {
    exists i | 0 <= i < |log| :: Starts(log[i], tx)
  }

  predicate Ended(log: Log, tx: TxId) {
    exists i | 0 <= i < |log| :: Ends(log[i], tx)
  }

  /** An entry fits after a log: transactions start once, and act and end only between start and end. */
  ghost predicate Fits(log: Log, e: Entry) {
    match e
    case Lifecycle(tx, Start) => !Started(log, tx)
    case Lifecycle(tx, _) => Started(log, tx) && !Ended(log, tx)
    case Operation(tx, _, _, _) => Effective(e) && Started(log, tx) && !Ended(log, tx)
    case Compensation(_, _, _, _) => true
    case Checkpoint(_) => true
  }

  ghost predicate Orderly(log: Log)
    decreases |log|
  {
    log != [] ==> Orderly(log[..|log| - 1]) && Fits(log[..|log| - 1], log[|log| - 1])
  }

  ghost function Committed(log: Log): set<TxId> {
    set i | 0 <= i < |log| && log[i].Lifecycle? && log[i].action == Commit :: log[i].tx
  }

  /** The value of a key after the operations of some transactions only. */
  function ReplayOf(log: Log, txs: set<TxId>, k: Key, base: Option<Row>): Option<Row> {
    if log == [] then base
    else
      var e := log[|log| - 1];
      if OpOn(e, k) && e.tx in txs then e.after else ReplayOf(log[..|log| - 1], txs, k, base)
  }

  /** The first operation on a key by any of some transactions. */
  function FirstIn(log: Log, txs: set<TxId>, k: Key): (r: Option<Entry>)
    ensures r.Some? ==> OpOn(r.value, k) && r.value.tx in txs && r.value in log
  {
    if log == [] then None
    else
      var earlier, e := FirstIn(log[..|log| - 1], txs, k), log[|log| - 1];
      if earlier.None? && OpOn(e, k) && e.tx in txs then Some(e) else earlier
  }

  lemma {:induction false} FirstInSame(log: Log, a: set<TxId>, b: set<TxId>, k: Key)
    requires forall i | 0 <= i < |log| && OpOn(log[i], k) :: log[i].tx in a <==> log[i].tx in b
    ensures FirstIn(log, a, k) == FirstIn(log, b, k)
  {
    if log != [] {
      FirstInSame(log[..|log| - 1], a, b, k);
    }
  }

  lemma {:induction false} FirstInFinds(log: Log, txs: set<TxId>, k: Key)
    ensures FirstIn(log, txs, k).None? <==> forall i | 0 <= i < |log| && OpOn(log[i], k) :: log[i].tx !in txs
  {
    if log != [] {
      var rest := log[..|log| - 1];
      FirstInFinds(rest, txs, k);
      assert forall i | 0 <= i < |rest| :: rest[i] == log[i];
    }
  }

  lemma StartedMore(log: Log, tx: TxId)
    requires log != []
    ensures var rest, e := log[..|log| - 1], log[|log| - 1];
            && (Started(log, tx) <==> Started(rest, tx) || Starts(e, tx))
            && (Ended(log, tx) <==> Ended(rest, tx) || Ends(e, tx))
  {
    var rest := log[..|log| - 1];
    assert forall i | 0 <= i < |rest| :: rest[i] == log[i];
    if Started(rest, tx) {
      var i :| 0 <= i < |rest| && Starts(rest[i], tx);
      assert Starts(log[i], tx);
    }
    if Ended(rest, tx) {
      var i :| 0 <= i < |rest| && Ends(rest[i], tx);
      assert Ends(log[i], tx);
    }
  }

  /** The transactions left to undo are those that started and did not end. */
  lemma {:induction false} LosersAre(log: Log, tx: TxId)
    requires Orderly(log)
    ensures tx in Unfinished(log, {}) <==> Started(log, tx) && !Ended(log, tx)
    ensures Ended(log, tx) ==> Started(log, tx)
    decreases |log|
  {
    if log != [] {
      StartedMore(log, tx);
      LosersAre(log[..|log| - 1], tx);
    }
  }

  /** Each transaction that ended either committed or aborted. */
  lemma {:induction false} EndsOnce(log: Log, tx: TxId)
    requires Orderly(log)
    ensures Ended(log, tx) <==> tx in Committed(log) || tx in Aborted(log)
    ensures !(tx in Committed(log) && tx in Aborted(log))
    decreases |log|
  {
    if log != [] {
      var rest, e := log[..|log| - 1], log[|log| - 1];
      StartedMore(log, tx);
      EndsOnce(rest, tx);
      InCommitted(log, tx);
    }
  }

  lemma InCommitted(log: Log, tx: TxId)
    requires log != []
    ensures var rest, e := log[..|log| - 1], log[|log| - 1];
            && (tx in Committed(log) <==> tx in Committed(rest) || e == Lifecycle(tx, Commit))
            && (tx in Aborted(log) <==> tx in Aborted(rest) || e == Lifecycle(tx, Abort))
  {
    var rest := log[..|log| - 1];
    assert forall i | 0 <= i < |rest| :: rest[i] == log[i];
    if tx in Committed(rest) {
      var i :| 0 <= i < |rest| && rest[i].Lifecycle? && rest[i].action == Commit && rest[i].tx == tx;
      assert log[i].Lifecycle?;
    }
    if tx in Aborted(rest) {
      var i :| 0 <= i < |rest| && rest[i].Lifecycle? && rest[i].action == Abort && rest[i].tx == tx;
      assert log[i].Lifecycle?;
    }
  }

  /** Undoing goes back to the first operations of those who started and did not end. */
  lemma {:induction false} UndoneIsFirst(pre: Log, log: Log, losers: set<TxId>, left: set<TxId>, k: Key)
    requires Orderly(log) && forall tx :: tx in left <==> tx in losers && Started(log, tx)
    ensures LastUndone(pre + log, k, left) == FirstIn(log, losers, k)
    decreases |log|
  {
    if log == [] {
      assert forall tx :: tx !in left;
    } else {
      var rest, e, whole := log[..|log| - 1], log[|log| - 1], pre + log;
      assert whole[|whole| - 1] == e && whole[..|whole| - 1] == pre + rest;
      var left' := if IsStart(e, left) then left - {e.tx} else left;
      forall tx ensures tx in left' <==> tx in losers && Started(rest, tx) {
        StartedMore(log, tx);
      }
      UndoneIsFirst(pre, rest, losers, left', k);
      if e.Operation? {
        StartedMore(log, e.tx);
      }
    }
  }

  /** Everyone who acts is a loser, or aborted, or committed, and only one of these. */
  ghost predicate Parted(log: Log, losers: set<TxId>, aborted: set<TxId>, committed: set<TxId>) {
    forall i | 0 <= i < |log| && Effective(log[i]) ::
      var tx := log[i].tx;
      && (tx in losers || tx in aborted || tx in committed)
      && !(tx in losers && tx in aborted) && !(tx in losers && tx in committed) && !(tx in aborted && tx in committed)
  }

  lemma OrderlyParts(log: Log)
    requires Orderly(log)
    ensures Parted(log, Unfinished(log, {}), Aborted(log), Committed(log))
  {
    forall i | 0 <= i < |log| && Effective(log[i])
      ensures var tx := log[i].tx;
              && Started(log, tx) && (tx in Unfinished(log, {}) <==> !Ended(log, tx))
              && (Ended(log, tx) <==> tx in Committed(log) || tx in Aborted(log)) && !(tx in Committed(log) && tx in Aborted(log))
    {
      ActsStarted(log, i);
      LosersAre(log, log[i].tx);
      EndsOnce(log, log[i].tx);
    }
  }

  lemma {:induction false} ActsStarted(log: Log, i: nat)
    requires Orderly(log) && i < |log| && Effective(log[i])
    ensures Started(log, log[i].tx)
    decreases |log|
  {
    StartedMore(log, log[i].tx);
    if i < |log| - 1 {
      ActsStarted(log[..|log| - 1], i);
    }
  }

  lemma {:induction false} RedoneIsCommitted(log: Log, losers: set<TxId>, aborted: set<TxId>, committed: set<TxId>, k: Key, base: Option<Row>)
    requires Parted(log, losers, aborted, committed) && FirstIn(log, losers, k).None?
    ensures var last := LastRedone(log, k, aborted);
            ReplayOf(log, committed, k, base) == if last.Some? then last.value.after else base
    decreases |log|
  {
    if log != [] {
      var rest := log[..|log| - 1];
      assert Parted(rest, losers, aborted, committed) by {
        assert forall i | 0 <= i < |rest| :: rest[i] == log[i];
      }
      RedoneIsCommitted(rest, losers, aborted, committed, k, base);
    }
  }

  /** The aim of recovery is the checkpoint with the committed operations applied in log order, exactly if
      the first before-image of an unfinished transaction under the key, if there is one, is that value. */
  lemma IntendedIsCommittedIff(log: Log, k: Key, was: Option<Row>)
    requires Ongoing(log) == {} && Orderly(After(log))
    ensures var first, committed := FirstIn(After(log), Losers(log), k), ReplayOf(After(log), Committed(After(log)), k, was);
            && LastUndone(log, k, Losers(log)) == first
            && (Intended(log, k, was) == committed <==> (first.Some? ==> first.value.before == committed))
  {
    var after, losers := After(log), Losers(log);
    assert log == log[..Since(log)] + after;
    forall tx ensures tx in losers <==> tx in losers && Started(after, tx) {
      LosersAre(after, tx);
    }
    UndoneIsFirst(log[..Since(log)], after, losers, losers, k);
    OrderlyParts(after);
    if FirstIn(after, losers, k).None? {
      RedoneIsCommitted(after, losers, Aborted(after), Committed(after), k, was);
    }
  }

  /** Whatever was flushed before the crash: recovery gives a key that value exactly if the first before-image
      of an unfinished transaction is that value, or what the disk has if it is none; without such an
      image, exactly if recovery does not take the row out of the buffer over one on disk, and the disk has
      the checkpoint value of a key it leaves alone. */
  lemma RecoversCommittedIff(d: Disk, log: Log, k: Key, was: Option<Row>)
    requires Ongoing(log) == {} && Orderly(After(log))
    ensures var first, committed := FirstIn(After(log), Losers(log), k), ReplayOf(After(log), Committed(After(log)), k, was);
            Lookup(d, Recovered(map[], log), k) == committed
            <==> if first.Some? then Uncovered(first.value.before, d, k) == committed
                 else !(Pops(log, k) && OnDisk(d, k).Some?) && (Untouched(log, k) ==> OnDisk(d, k) == was)
  {
    var after := After(log);
    RecoversIff(d, log, k, was);
    IntendedIsCommittedIff(log, k, was);
    OrderlyParts(after);
    if FirstIn(after, Losers(log), k).None? {
      RedoneIsCommitted(after, Losers(log), Aborted(after), Committed(after), k, was);
    }
  }

  /** For a log without deletions only the unfinished before-image matters. */
  lemma RecoversWithoutDeletions(d: Disk, log: Log, k: Key, was: Option<Row>)
    requires Ongoing(log) == {} && Orderly(After(log)) && (Untouched(log, k) ==> OnDisk(d, k) == was)
    requires forall i | 0 <= i < |log| && log[i].Operation? :: log[i].after.Some?
    ensures var first, committed := FirstIn(After(log), Losers(log), k), ReplayOf(After(log), Committed(After(log)), k, was);
            Lookup(d, Recovered(map[], log), k) == committed <==> (first.Some? ==> Uncovered(first.value.before, d, k) == committed)
  {
    RecoversCommittedIff(d, log, k, was);
    IntendedIsCommittedIff(log, k, was);
    var after := After(log);
    assert forall i | 0 <= i < |after| :: after[i] == log[Since(log) + i];
    LastRedoneIn(after, k, Aborted(after));
  }

  lemma {:induction false} LastRedoneIn(log: Log, k: Key, aborted: set<TxId>)
    ensures LastRedone(log, k, aborted).Some? ==> LastRedone(log, k, aborted).value in log
  {
    if log != [] {
      LastRedoneIn(log[..|log| - 1], k, aborted);
    }
  }

  // ---- instances ----

  const GONE: Entry := Operation(1, TEN, Some(OLD), None)
  const BRIEF: Log := [Lifecycle(1, Start), GONE, Lifecycle(1, Commit)]

  lemma {:induction false} SinceIs(pre: Log, ongoing: set<TxId>, after: Log)
    requires forall i | 0 <= i < |after| :: !after[i].Checkpoint?
    ensures Since(pre + [Checkpoint(ongoing)] + after) == |pre| + 1
    decreases |after|
  {
    var log := pre + [Checkpoint(ongoing)] + after;
    if after != [] {
      assert log[|log| - 1] == after[|after| - 1] && log[..|log| - 1] == pre + [Checkpoint(ongoing)] + after[..|after| - 1];
      SinceIs(pre, ongoing, after[..|after| - 1]);
    }
  }

  lemma BriefIsOrderly()
    ensures Orderly(BRIEF) && 1 in Committed(BRIEF) && 1 !in Aborted(BRIEF) && 1 !in Unfinished(BRIEF, {})
    ensures BRIEF[..2] == [Lifecycle(1, Start), GONE] && BRIEF[..2][..1] == [Lifecycle(1, Start)] && BRIEF[..2][..1][..0] == []
  {
    assert BRIEF[..2] == [Lifecycle(1, Start), GONE] && BRIEF[..2][..1] == [Lifecycle(1, Start)] && BRIEF[..2][..1][..0] == [];
    assert Fits([], Lifecycle(1, Start));
    assert Starts(BRIEF[..2][..1][0], 1) && Starts(BRIEF[..2][0], 1) && Ends(BRIEF[2], 1);
    assert Orderly([Lifecycle(1, Start)]);
    assert Fits([Lifecycle(1, Start)], GONE) && Orderly(BRIEF[..2]);
    assert Fits(BRIEF[..2], Lifecycle(1, Commit));
    assert BRIEF[2].Lifecycle? && BRIEF[2].action == Commit;
    LosersAre(BRIEF, 1);
    EndsOnce(BRIEF, 1);
  }

  /** A row on disk, deleted by a transaction that committed: recovery brings it back. */
  lemma DeletionComesBack()
    ensures var log, d: Disk := [Checkpoint({})] + BRIEF, map["t" := [OLD]];
            && Ongoing(log) == {} && Orderly(After(log)) && FirstIn(After(log), Losers(log), TEN).None?
            && ReplayOf(After(log), Committed(After(log)), TEN, OnDisk(d, TEN)) == None
            && Lookup(d, Recovered(map[], log), TEN) == Some(OLD)
  {
    var log, d: Disk := [Checkpoint({})] + BRIEF, map["t" := [OLD]];
    SinceIs([], {}, BRIEF);
    assert [] + [Checkpoint({})] + BRIEF == log && After(log) == BRIEF && log[0] == Checkpoint({});
    BriefIsOrderly();
    assert ReplayOf(BRIEF[..2], Committed(BRIEF), TEN, Some(OLD)) == None;
    assert FirstIn(BRIEF[..2][..1], Losers(log), TEN) == None && FirstIn(BRIEF[..2], Losers(log), TEN) == None;
    assert LastRedone(BRIEF[..2], TEN, Aborted(BRIEF)) == Some(GONE);
    IntendedIsCommittedIff(log, TEN, Some(OLD));
    assert Pops(log, TEN);
    RecoversIff(d, log, TEN, Some(OLD));
  }

  const OVERWRITING: Entry := Operation(2, TEN, Some(OLD), Some(NEW))
  const RENEWED: Log := [Lifecycle(2, Start), OVERWRITING]

  lemma RenewedIsOrderly()
    ensures Orderly(RENEWED) && 2 in Unfinished(RENEWED, {}) && 2 !in Committed(RENEWED) && 2 !in Aborted(RENEWED)
    ensures RENEWED[..1] == [Lifecycle(2, Start)] && RENEWED[..1][..0] == []
  {
    assert RENEWED[..1] == [Lifecycle(2, Start)] && RENEWED[..1][..0] == [];
    assert Fits([], Lifecycle(2, Start)) && Orderly(RENEWED[..1]);
    assert Starts(RENEWED[..1][0], 2);
    assert Fits(RENEWED[..1], OVERWRITING);
  }

  /** A write over the buffered deletion of a row, gone from the disk, logs that row as before-image. If its
      transaction does not finish, recovery brings the deleted row back, and so does rolling it back. */
  lemma DeletedRowComesBack()
    ensures var log, d: Disk := [Checkpoint({})] + RENEWED, map["t" := []];
            && Ongoing(log) == {} && Orderly(After(log))
            && ReplayOf(After(log), Committed(After(log)), TEN, OnDisk(d, TEN)) == None
            && Lookup(d, Recovered(map[], log), TEN) == Some(OLD)
            && forall b :: Lookup(d, UndoAll(b, log, {2}), TEN) == Some(OLD)
  {
    var log, d: Disk := [Checkpoint({})] + RENEWED, map["t" := []];
    SinceIs([], {}, RENEWED);
    assert [] + [Checkpoint({})] + RENEWED == log && After(log) == RENEWED && log[0] == Checkpoint({});
    RenewedIsOrderly();
    assert FirstIn(RENEWED[..1], Losers(log), TEN) == None;
    assert ReplayOf(RENEWED[..1], Committed(RENEWED), TEN, None) == None;
    RecoversCommittedIff(d, log, TEN, None);
    IntendedIsCommittedIff(log, TEN, None);
    RecoversIff(d, log, TEN, None);
    forall b ensures Lookup(d, UndoAll(b, log, {2}), TEN) == Some(OLD) {
      assert [Checkpoint({})] + [Lifecycle(2, Start)] + [OVERWRITING] == log;
      assert FirstOp([OVERWRITING][..0], 2, TEN) == None;
      RollbackRestoresIff(d, b, [Checkpoint({})], [OVERWRITING], 2, TEN, Some(OLD));
    }
  }

  /** Rolling back an insertion whose row was flushed leaves the row. */
  lemma InsertionComesBack(b: Buffer)
    ensures Lookup(map["t" := [OLD]], UndoAll(b, [Lifecycle(1, Start), Operation(1, TEN, None, Some(OLD))], {1}), TEN) == Some(OLD)
  {
    var insertion := Operation(1, TEN, None, Some(OLD));
    assert [] + [Lifecycle(1, Start)] + [insertion] == [Lifecycle(1, Start), insertion];
    assert FirstOp([insertion][..0], 1, TEN) == None;
    RollbackRestoresIff(map["t" := [OLD]], b, [], [insertion], 1, TEN, Some(OLD));
  }
}
