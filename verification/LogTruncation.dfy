/** Cutting the log down after a checkpoint, and what recovery makes of the rest. */
module LogTruncation {
  import opened Wrappers
  import opened BufferPool
  import opened WriteAheadLog
  import opened Recovery
  import opened RecoverySafety

  // ---- no transaction going on: keep from the last checkpoint on ----

  function FromCheckpoint(log: Log): Log {
    if Since(log) == 0 then log else log[Since(log) - 1..]
  }

  method ClearBeforeCheckpoint(log: Log) returns (kept: Log)
    ensures kept == FromCheckpoint(log)
  {
    kept := [];
    var i := |log|;
    assert log[..i] == log;
    while i > 0
      invariant 0 <= i <= |log| && kept == log[i..] && Since(log[..i]) == Since(log)
    {
      i := i - 1;
      assert log[..i + 1][..i] == log[..i];
      kept := [log[i]] + kept;
      if log[i].Checkpoint? {
        return;
      }
    }
    assert log[..0] == [];
    kept := log;
  }

  /** What lies before the starts of all that is to be undone is not looked at. */
  lemma {:induction false} UndoStops(b: Buffer, pre: Log, log: Log, losers: set<TxId>, left: set<TxId>)
    requires Orderly(log) && forall tx :: tx in left <==> tx in losers && Started(log, tx)
    ensures UndoAll(b, pre + log, left) == UndoAll(b, log, left) && Trail(pre + log, left) == Trail(log, left)
    decreases |log|
  {
    if log == [] {
      assert left == {} by {
        assert forall tx :: tx !in left;
      }
    } else if left != {} {
      var rest, e, whole := log[..|log| - 1], log[|log| - 1], pre + log;
      assert whole[|whole| - 1] == e && whole[..|whole| - 1] == pre + rest;
      var left' := if IsStart(e, left) then left - {e.tx} else left;
      forall tx ensures tx in left' <==> tx in losers && Started(rest, tx) {
        StartedMore(log, tx);
      }
      UndoStops(if Effective(e) && e.tx in left then Undone(b, e) else b, pre, rest, losers, left');
    }
  }

  lemma OrderlyAfterCheckpoint(after: Log)
    requires Orderly(after)
    ensures Orderly([Checkpoint({})] + after)
    ensures forall tx :: Started([Checkpoint({})] + after, tx) <==> Started(after, tx)
    ensures forall tx :: Ended([Checkpoint({})] + after, tx) <==> Ended(after, tx)
    decreases |after|
  {
    var log := [Checkpoint({})] + after;
    forall tx ensures (Started(log, tx) <==> Started(after, tx)) && (Ended(log, tx) <==> Ended(after, tx)) {
      SameStarts(Checkpoint({}), after, tx);
    }
    if after == [] {
      assert log[..|log| - 1] == [];
    } else {
      assert log[..|log| - 1] == [Checkpoint({})] + after[..|after| - 1];
      OrderlyAfterCheckpoint(after[..|after| - 1]);
    }
  }

  lemma SameStarts(c: Entry, after: Log, tx: TxId)
    requires c.Checkpoint?
    ensures Started([c] + after, tx) <==> Started(after, tx)
    ensures Ended([c] + after, tx) <==> Ended(after, tx)
  {
    var log := [c] + after;
    assert forall i | 0 <= i < |after| :: after[i] == log[i + 1];
    if Started(after, tx) {
      var i :| 0 <= i < |after| && Starts(after[i], tx);
      assert Starts(log[i + 1], tx);
    }
    if Ended(after, tx) {
      var i :| 0 <= i < |after| && Ends(after[i], tx);
      assert Ends(log[i + 1], tx);
    }
  }

  /** Truncated at a checkpoint with nothing going on, the log leads recovery to the same operations to
      redo, the same transactions to undo, the same buffer and the same new entries. */
  lemma TruncationKeepsRecovery(b: Buffer, log: Log)
    requires Ongoing(log) == {} && Orderly(After(log))
    ensures var kept := FromCheckpoint(log);
            && After(kept) == After(log) && Losers(kept) == Losers(log)
            && Recovered(b, kept) == Recovered(b, log) && Trail(kept, Losers(kept)) == Trail(log, Losers(log))
  {
    hide UndoAll, RedoAll, Trail, Unfinished, Aborted, Since, Orderly, Started, Ended, Ongoing;
    if Since(log) > 0 {
      var after, kept, losers := After(log), FromCheckpoint(log), Losers(log);
      TruncatedParts(log);
      OrderlyAfterCheckpoint(after);
      forall tx ensures tx in losers <==> tx in losers && Started(kept, tx) {
        LosersAre(after, tx);
      }
      UndoStops(RedoAll(b, after, Aborted(after)), log[..Since(log) - 1], kept, losers, losers);
    }
  }

  lemma TruncatedParts(log: Log)
    requires Since(log) > 0 && Ongoing(log) == {}
    ensures var kept := FromCheckpoint(log);
            && kept == [Checkpoint({})] + After(log) && After(kept) == After(log) && Ongoing(kept) == {}
            && log == log[..Since(log) - 1] + kept
  {
    hide Since;
    var n := Since(log);
    CutAt(log, n - 1);
    SinceIs([], {}, log[n..]);
    assert [] + [Checkpoint({})] + log[n..] == FromCheckpoint(log);
    CutAt(FromCheckpoint(log), 0);
  }

  lemma CutAt(log: Log, i: nat)
    requires i < |log|
    ensures log == log[..i] + log[i..] && log[i..] == [log[i]] + log[i + 1..] && log[0..] == log
  {
  }

  // ---- transactions going on: keep their entries from the start of one of them on ----

  predicate Of(e: Entry, txs: set<TxId>) {
    !e.Checkpoint? && e.tx in txs
  }

  predicate LastCheckpoint(log: Log, i: nat)
    requires i < |log|
  {
    log[i].Checkpoint? && i + 1 == Since(log)
  }

  /** Of the first `n` entries those kept: the ones of the transactions, once the start of the least has
      been seen, and the last checkpoint of the log. */
  function Kept(log: Log, n: nat, txs: set<TxId>, least: TxId): Log
    requires n <= |log|
  {
    if n == 0 then []
    else if LastCheckpoint(log, n - 1) || (Started(log[..n], least) && Of(log[n - 1], txs))
      then Kept(log, n - 1, txs, least) + [log[n - 1]]
    else Kept(log, n - 1, txs, least)
  }

  /** All their entries, and the last checkpoint. */
  function Wanted(log: Log, n: nat, txs: set<TxId>): Log
    requires n <= |log|
  {
    if n == 0 then []
    else if LastCheckpoint(log, n - 1) || Of(log[n - 1], txs) then Wanted(log, n - 1, txs) + [log[n - 1]]
    else Wanted(log, n - 1, txs)
  }

  method ClearBeforeOldest(log: Log, txs: set<TxId>) returns (kept: Log)
    ensures if txs == {} then kept == [] else exists least :: IsLeast(least, txs) && kept == Kept(log, |log|, txs, least)
  {
    if txs == {} {
      return [];
    }
    // The smallest identifier, which need not be the oldest transaction's.
    var least := Least(txs);
    kept := [];
    var i, seen := 0, false;
    while i < |log|
      invariant i <= |log| && kept == Kept(log, i, txs, least) && seen == Started(log[..i], least)
    {
      StartedMore(log[..i + 1], least);
      assert log[..i + 1][..i] == log[..i];
      if LastCheckpoint(log, i) {
        kept := kept + [log[i]];
      } else {
        if Starts(log[i], least) {
          seen := true;
        }
        if seen && Of(log[i], txs) {
          kept := kept + [log[i]];
        }
      }
      i := i + 1;
    }
  }

  /** The start of one transaction comes before every entry of the others. */
  ghost predicate StartsFirst(log: Log, n: nat, txs: set<TxId>, least: TxId)
    requires n <= |log|
  {
    forall i | 0 <= i < n && Of(log[i], txs) :: Started(log[..i + 1], least)
  }

  /** Everything wanted is kept exactly if the start of the least identifier comes first. */
  lemma {:induction false} KeepsAllIff(log: Log, n: nat, txs: set<TxId>, least: TxId)
    requires n <= |log|
    ensures |Kept(log, n, txs, least)| <= |Wanted(log, n, txs)|
    ensures Kept(log, n, txs, least) == Wanted(log, n, txs) <==> StartsFirst(log, n, txs, least)
    ensures |Kept(log, n, txs, least)| == |Wanted(log, n, txs)| <==> StartsFirst(log, n, txs, least)
  {
    if n > 0 {
      KeepsAllIff(log, n - 1, txs, least);
    }
  }

  lemma {:induction false} UndoWanted(b: Buffer, log: Log, n: nat, txs: set<TxId>, left: set<TxId>)
    requires n <= |log| && left <= txs
    ensures UndoAll(b, Wanted(log, n, txs), left) == UndoAll(b, log[..n], left)
    decreases n
  {
    if n > 0 {
      var e, rest, most := log[n - 1], log[..n][..n - 1], Wanted(log, n - 1, txs);
      assert rest == log[..n - 1] && (most + [e])[..|most|] == most;
      var b' := if Effective(e) && e.tx in left then Undone(b, e) else b;
      var left' := if IsStart(e, left) then left - {e.tx} else left;
      UndoWanted(b', log, n - 1, txs, left');
      if left' == {} {
        assert UndoAll(b', most, left') == b';
      }
    }
  }

  lemma {:induction false} UndoWantedThen(b: Buffer, log: Log, txs: set<TxId>, more: Log, left: set<TxId>)
    requires forall tx | tx in left :: tx in txs || Started(more, tx)
    ensures UndoAll(b, Wanted(log, |log|, txs) + more, left) == UndoAll(b, log + more, left)
    decreases |more|
  {
    var kept := Wanted(log, |log|, txs);
    if more == [] {
      assert kept + more == kept && log + more == log && log[..|log|] == log;
      forall tx | tx in left ensures tx in txs {
      }
      UndoWanted(b, log, |log|, txs, left);
    } else if left != {} {
      var e, rest := more[|more| - 1], more[..|more| - 1];
      assert (kept + more)[..|kept + more| - 1] == kept + rest && (log + more)[..|log + more| - 1] == log + rest;
      var left' := if IsStart(e, left) then left - {e.tx} else left;
      forall tx | tx in left' ensures tx in txs || Started(rest, tx) {
        StartedMore(more, tx);
      }
      UndoWantedThen(if Effective(e) && e.tx in left then Undone(b, e) else b, log, txs, rest, left');
    }
  }

  lemma {:induction false} NewLosersStarted(more: Log, txs: set<TxId>)
    ensures forall tx | tx in Unfinished(more, txs) :: tx in txs || Started(more, tx)
  {
    if more != [] {
      var rest, e := more[..|more| - 1], more[|more| - 1];
      NewLosersStarted(rest, txs);
      forall tx | tx in Unfinished(more, txs) ensures tx in txs || Started(more, tx) {
        StartedMore(more, tx);
        assert e.Lifecycle? && e.action == Start && e.tx == tx ==> Starts(e, tx);
      }
    }
  }

  /** After a checkpoint with transactions going on: whatever is logged next, the shortened log leads
      recovery to the same buffer, if the start of the least identifier came first. */
  lemma ShorteningKeepsRecovery(b: Buffer, before: Log, txs: set<TxId>, least: TxId, more: Log)
    requires forall i | 0 <= i < |more| :: !more[i].Checkpoint?
    requires StartsFirst(before + [Checkpoint(txs)], |before| + 1, txs, least)
    ensures var log := before + [Checkpoint(txs)];
            Recovered(b, Kept(log, |log|, txs, least) + more) == Recovered(b, log + more)
  {
    var log := before + [Checkpoint(txs)];
    KeepsAllIff(log, |log|, txs, least);
    SinceIs(before, txs, []);
    assert before + [Checkpoint(txs)] + [] == log;
    var most := Wanted(log, |before|, txs);
    assert Wanted(log, |log|, txs) == most + [Checkpoint(txs)];
    SinceIs(before, txs, more);
    SinceIs(most, txs, more);
    assert (log + more)[|log|..] == more && (most + [Checkpoint(txs)] + more)[|most| + 1..] == more;
    assert (most + [Checkpoint(txs)] + more)[|most|] == Checkpoint(txs);
    NewLosersStarted(more, txs);
    UndoWantedThen(RedoAll(b, more, Aborted(more)), log, txs, more, Unfinished(more, txs));
  }

  // ---- what is left when something is lost ----

  /** Nobody acts before a start of its own. */
  ghost predicate StartsBeforeActs(log: Log) {
    forall i, j | 0 <= i < j < |log| && Effective(log[i]) :: log[j] != Lifecycle(log[i].tx, Start)
  }

  lemma StartsBeforeActsMore(log: Log, e: Entry)
    ensures StartsBeforeActs(log + [e]) <==>
              StartsBeforeActs(log) && forall x | x in log && Effective(x) :: e != Lifecycle(x.tx, Start)
  {
    var more := log + [e];
    assert more[|log|] == e;
    assert forall i | 0 <= i < |log| :: more[i] == log[i];
  }

  /** Undoing ends, under each key, with the first operation of those to be undone. */
  lemma {:induction false} UndoneIsFirstIn(log: Log, losers: set<TxId>, k: Key)
    requires StartsBeforeActs(log)
    ensures LastUndone(log, k, losers) == FirstIn(log, losers, k)
    decreases |log|
  {
    if losers == {} {
      FirstInFinds(log, losers, k);
    } else if log != [] {
      var n := |log| - 1;
      var rest, e := log[..n], log[n];
      assert log == rest + [e];
      StartsBeforeActsMore(rest, e);
      if IsStart(e, losers) {
        assert forall i | 0 <= i < n && OpOn(rest[i], k) :: rest[i].tx != e.tx;
        FirstInSame(rest, losers, losers - {e.tx}, k);
        UndoneIsFirstIn(rest, losers - {e.tx}, k);
      } else {
        UndoneIsFirstIn(rest, losers, k);
      }
    }
  }

  lemma {:induction false} FirstInJoin(log: Log, more: Log, txs: set<TxId>, k: Key)
    ensures FirstIn(log + more, txs, k) == if FirstIn(log, txs, k).Some? then FirstIn(log, txs, k) else FirstIn(more, txs, k)
    decreases |more|
  {
    if more == [] {
      assert log + more == log;
    } else {
      var rest := more[..|more| - 1];
      assert (log + more)[..|log + more| - 1] == log + rest;
      FirstInJoin(log, rest, txs, k);
    }
  }

  lemma {:induction false} KeptInOrder(log: Log, n: nat, txs: set<TxId>, least: TxId)
    requires n <= |log| && StartsBeforeActs(log)
    ensures StartsBeforeActs(Kept(log, n, txs, least)) && forall x | x in Kept(log, n, txs, least) :: x in log[..n]
  {
    if n > 0 {
      KeptInOrder(log, n - 1, txs, least);
      var before := Kept(log, n - 1, txs, least);
      assert log[..n] == log[..n - 1] + [log[n - 1]];
      StartsBeforeActsMore(before, log[n - 1]);
      forall x | x in before && Effective(x) ensures log[n - 1] != Lifecycle(x.tx, Start) {
        var i :| 0 <= i < n - 1 && log[..n - 1][i] == x;
        assert log[i] == x;
      }
    }
  }

  /** A shorter log in front keeps the order, if it has only what the longer one has. */
  lemma {:induction false} StillInOrder(log: Log, kept: Log, more: Log)
    requires StartsBeforeActs(log + more) && StartsBeforeActs(kept) && forall x | x in kept :: x in log
    ensures StartsBeforeActs(kept + more)
    decreases |more|
  {
    if more == [] {
      assert kept + more == kept;
    } else {
      var rest, e := more[..|more| - 1], more[|more| - 1];
      assert log + more == (log + rest) + [e] && kept + more == (kept + rest) + [e];
      StartsBeforeActsMore(log + rest, e);
      StillInOrder(log, kept, rest);
      StartsBeforeActsMore(kept + rest, e);
      assert forall x | x in kept + rest :: x in log + rest;
    }
  }

  /** An operation of a listed transaction, logged before the start of the least of them. */
  ghost predicate Dropped(log: Log, e: Entry, txs: set<TxId>, least: TxId) {
    exists i | 0 <= i < |log| && log[i] == e :: Of(e, txs) && !Started(log[..i + 1], least)
  }

  lemma FirstInNext(log: Log, e: Entry, txs: set<TxId>, k: Key)
    ensures FirstIn(log + [e], txs, k) == if FirstIn(log, txs, k).None? && OpOn(e, k) && e.tx in txs then Some(e) else FirstIn(log, txs, k)
  {
    assert (log + [e])[..|log|] == log;
  }

  lemma {:induction false} KeptFirst(log: Log, n: nat, txs: set<TxId>, least: TxId, losers: set<TxId>, k: Key)
    requires n <= |log| && forall i | 0 <= i < |log| && OpOn(log[i], k) && log[i].tx in losers :: log[i].tx in txs
    ensures var first := FirstIn(log[..n], losers, k);
            FirstIn(Kept(log, n, txs, least), losers, k) == first || (first.Some? && Dropped(log, first.value, txs, least))
  {
    hide Started, LastCheckpoint, FirstIn;
    if n > 0 {
      KeptFirst(log, n - 1, txs, least, losers, k);
      var before, e := Kept(log, n - 1, txs, least), log[n - 1];
      assert log[..n] == log[..n - 1] + [e];
      FirstInNext(log[..n - 1], e, losers, k);
      FirstInNext(before, e, losers, k);
      if FirstIn(log[..n - 1], losers, k).None? && OpOn(e, k) && e.tx in losers && !Started(log[..n], least) {
        assert log[n - 1] == e && Of(e, txs) && !Started(log[..n - 1 + 1], least);
        assert Dropped(log, e, txs, least);
      }
    }
  }

  /** What recovery leaves under a key for the first operation to be undone. */
  function Leaves(first: Option<Entry>, d: Disk, b: Buffer, k: Key): Option<Row>
    requires first.Some? ==> first.value.Operation?
  {
    if first.Some? then Uncovered(first.value.before, d, k) else Lookup(d, b, k)
  }

  /** Whatever is logged next: the shortened log leads recovery to the same row under a key, exactly if the
      first operation to be undone that was kept leaves the same as the first of all; and unless the first
      of all was dropped, they are the same operation. */
  lemma ShorteningKeepsKeyIff(d: Disk, b: Buffer, before: Log, txs: set<TxId>, least: TxId, more: Log, k: Key)
    requires (forall i | 0 <= i < |more| :: !more[i].Checkpoint?) && StartsBeforeActs(before + [Checkpoint(txs)] + more)
    ensures var log := before + [Checkpoint(txs)];
            var kept, losers, redone := Kept(log, |log|, txs, least), Unfinished(more, txs), RedoAll(b, more, Aborted(more));
            var first, left := FirstIn(log + more, losers, k), FirstIn(kept + more, losers, k);
            && (Lookup(d, Recovered(b, kept + more), k) == Lookup(d, Recovered(b, log + more), k)
                <==> Leaves(left, d, redone, k) == Leaves(first, d, redone, k))
            && (left == first || (first.Some? && Dropped(log, first.value, txs, least)))
  {
    hide Kept, Unfinished, Aborted, RedoAll, UndoAll, LastUndone, FirstIn, Lookup, StartsBeforeActs, Started;
    var log := before + [Checkpoint(txs)];
    var kept, losers := Kept(log, |log|, txs, least), Unfinished(more, txs);
    var redone := RedoAll(b, more, Aborted(more));
    ShortenedParts(before, txs, least, more);
    OrderOfFront(log, more);
    KeptInOrder(log, |log|, txs, least);
    StillInOrder(log, kept, more);
    UndoneIsFirstIn(log + more, losers, k);
    UndoneIsFirstIn(kept + more, losers, k);
    AfterUndo(d, redone, log + more, losers, k);
    AfterUndo(d, redone, kept + more, losers, k);
    FirstInJoin(log, more, losers, k);
    FirstInJoin(kept, more, losers, k);
    ListedOnly(log, more, txs, k);
    assert log[..|log|] == log;
    KeptFirst(log, |log|, txs, least, losers, k);
  }

  lemma OrderOfFront(log: Log, more: Log)
    requires StartsBeforeActs(log + more)
    ensures StartsBeforeActs(log)
  {
    assert forall i | 0 <= i < |log| :: log[i] == (log + more)[i];
  }

  lemma ListedOnly(log: Log, more: Log, txs: set<TxId>, k: Key)
    requires StartsBeforeActs(log + more)
    ensures forall i | 0 <= i < |log| && OpOn(log[i], k) && log[i].tx in Unfinished(more, txs) :: log[i].tx in txs
  {
    NewLosersStarted(more, txs);
    forall i | 0 <= i < |log| && OpOn(log[i], k) && log[i].tx in Unfinished(more, txs) ensures log[i].tx in txs {
      forall j | 0 <= j < |more| ensures !Starts(more[j], log[i].tx) {
        assert (log + more)[i] == log[i] && (log + more)[|log| + j] == more[j];
      }
    }
  }

  /** Both logs have the same entries after the checkpoint, and the same transactions on it. */
  lemma ShortenedParts(before: Log, txs: set<TxId>, least: TxId, more: Log)
    requires forall i | 0 <= i < |more| :: !more[i].Checkpoint?
    ensures var log := before + [Checkpoint(txs)];
            var kept := Kept(log, |log|, txs, least);
            && After(kept + more) == more && After(log + more) == more && Ongoing(kept + more) == txs == Ongoing(log + more)
  {
    var log := before + [Checkpoint(txs)];
    SinceIs(before, txs, []);
    assert before + [Checkpoint(txs)] + [] == log;
    var most := Kept(log, |before|, txs, least);
    assert Kept(log, |log|, txs, least) == most + [Checkpoint(txs)];
    SinceIs(before, txs, more);
    SinceIs(most, txs, more);
    assert (log + more)[|log|..] == more && (most + [Checkpoint(txs)] + more)[|most| + 1..] == more;
    assert (most + [Checkpoint(txs)] + more)[|most|] == Checkpoint(txs) && (log + more)[|before|] == Checkpoint(txs);
  }

  const OLDER: Log := RENEWED + [Lifecycle(1, Start)]

  /** The smallest identifier is not the oldest transaction: the operation of the older one is dropped, and
      recovery leaves what it wrote. */
  lemma LeastIsNotOldest()
    ensures var log := OLDER + [Checkpoint({1, 2})];
            var kept, d: Disk := Kept(log, |log|, {1, 2}, 1), map["t" := [NEW]];
            && IsLeast(1, {1, 2}) && kept == [Lifecycle(1, Start)] + [Checkpoint({1, 2})]
            && Lookup(d, Recovered(map[], log), TEN) == Some(OLD) && Lookup(d, Recovered(map[], kept), TEN) == Some(NEW)
  {
    hide Kept, Since, After, Losers, Ongoing, Unfinished, Aborted, LastRedone, LastUndone, FirstIn, Recovered;
    var txs := {1, 2};
    var log, kept := OLDER + [Checkpoint(txs)], [Lifecycle(1, Start)] + [Checkpoint(txs)];
    var d: Disk := map["t" := [NEW]];
    LeastKept();
    FirstOfOlder(txs);
    RecoveryAtCheckpoint(OLDER, txs, d, TEN);
    RecoveryAtCheckpoint([Lifecycle(1, Start)], txs, d, TEN);
  }

  /** A crash right after a checkpoint: recovery undoes the transactions it lists. */
  lemma RecoveryAtCheckpoint(front: Log, txs: set<TxId>, d: Disk, k: Key)
    requires StartsBeforeActs(front + [Checkpoint(txs)])
    ensures var log := front + [Checkpoint(txs)];
            Lookup(d, Recovered(map[], log), k) == Leaves(FirstIn(log, txs, k), d, map[], k)
  {
    hide FirstIn, Since, Lookup, StartsBeforeActs;
    var log := front + [Checkpoint(txs)];
    SinceIs(front, txs, []);
    assert front + [Checkpoint(txs)] + [] == log && log[|front|] == Checkpoint(txs) && log[|log|..] == [];
    UndoneIsFirstIn(log, txs, k);
    AfterUndo(d, map[], log, txs, k);
  }

  lemma FirstOfOlder(txs: set<TxId>)
    requires txs == {1, 2}
    ensures FirstIn(OLDER + [Checkpoint(txs)], txs, TEN) == Some(OVERWRITING)
    ensures FirstIn([Lifecycle(1, Start)] + [Checkpoint(txs)], txs, TEN) == None
    ensures StartsBeforeActs(OLDER + [Checkpoint(txs)]) && StartsBeforeActs([Lifecycle(1, Start)] + [Checkpoint(txs)])
  {
    FirstInJoin(RENEWED, [Lifecycle(1, Start)], txs, TEN);
    FirstInJoin(OLDER, [Checkpoint(txs)], txs, TEN);
    FirstInJoin([Lifecycle(2, Start)], [OVERWRITING], txs, TEN);
    assert RENEWED == [Lifecycle(2, Start)] + [OVERWRITING];
    FirstInFinds([Lifecycle(1, Start)] + [Checkpoint(txs)], txs, TEN);
    FirstInFinds([Lifecycle(2, Start)], txs, TEN);
    assert [OVERWRITING][..0] == [] && FirstIn([OVERWRITING][..0], txs, TEN) == None;
  }

  lemma LeastKept()
    ensures var log := OLDER + [Checkpoint({1, 2})]; Kept(log, |log|, {1, 2}, 1) == [Lifecycle(1, Start)] + [Checkpoint({1, 2})]
  {
    var txs := {1, 2};
    var log := OLDER + [Checkpoint(txs)];
    SinceIs(OLDER, txs, []);
    assert OLDER + [Checkpoint(txs)] + [] == log && |log| == 4;
    assert log[0] == Lifecycle(2, Start) && log[1] == OVERWRITING && log[2] == Lifecycle(1, Start) && log[3] == Checkpoint(txs);
    assert !Started(log[..1], 1) && !Started(log[..2], 1);
    assert Starts(log[..3][2], 1);
    assert Kept(log, 0, txs, 1) == [] && Kept(log, 1, txs, 1) == [] && Kept(log, 2, txs, 1) == [];
    assert Kept(log, 3, txs, 1) == [Lifecycle(1, Start)];
  }
}
