/** `RecoveryEngine`: the passes over the log, on the buffer manager. */
module RecoveryEngine {
  import opened Wrappers
  import opened Sequences
  import opened BufferPool
  import opened WriteAheadLog
  import opened Recovery
  import opened RecoverySafety
  import BM = BufferManager
  import Steps = BufferSteps

  lemma RoomForOne(b: Buffer, keys: set<Key>, k: Key)
    requires b.Keys <= keys && k in keys && k !in b
    ensures |b| < |keys|
  {
    var rest := keys - {k};
    assert b.Keys <= rest;
    Fewer(b.Keys, rest);
    assert |b| == |b.Keys|;
  }

  lemma {:induction false} Fewer<T>(a: set<T>, b: set<T>)
    requires a <= b
    ensures |a| <= |b|
  {
    assert b == a + (b - a);
  }

  lemma KeyOf(log: Log, i: nat)
    requires i < |log| && log[i].Operation?
    ensures log[i].key in KeysOf(log)
  {
  }

  lemma InKeys(log: Log, i: nat, keys: set<Key>)
    requires i < |log| && log[i].Operation?
    ensures KeysOf(log) <= keys ==> log[i].key in keys
  {
    KeyOf(log, i);
  }

  method FindAborted(log: Log) returns (aborted: set<TxId>)
    ensures aborted == Aborted(log)
  {
    aborted := {};
    var i := 0;
    while i < |log|
      invariant i <= |log| && forall tx :: tx in aborted <==> exists j | 0 <= j < i :: log[j] == Lifecycle(tx, Abort)
    {
      if log[i].Lifecycle? && log[i].action == Abort {
        aborted := aborted + {log[i].tx};
      }
      i := i + 1;
    }
    forall tx ensures tx in aborted <==> tx in Aborted(log) {
      if tx in Aborted(log) {
        var j :| 0 <= j < |log| && log[j].Lifecycle? && log[j].action == Abort && log[j].tx == tx;
        assert log[j] == Lifecycle(tx, Abort);
      }
    }
  }

  lemma Next(log: Log, e: Entry, rest: Log)
    ensures log + [e] + rest == log + ([e] + rest)
  {
  }

  lemma Longer(log: Log, trail: Log, e: Entry, rest: Log)
    ensures log + trail + [e] == log + (trail + [e]) && trail + [e] + rest == trail + ([e] + rest)
  {
  }

  lemma ProperAfter(log: Log, d: Disk)
    requires ProperLog(log, d)
    ensures ProperLog(After(log), d) && KeysOf(After(log)) <= KeysOf(log)
  {
    var after := After(log);
    forall i | 0 <= i < |after| ensures Proper(after[i], d) && (after[i].Operation? ==> after[i].key in KeysOf(log)) {
      assert after[i] == log[Since(log) + i];
    }
  }

  // ---- what the passes leave, key by key, whatever is evicted meanwhile ----

  /** An image put back, or its row taken out of the buffer; other keys are seen as before. */
  ghost predicate Put(key: Key, image: Option<Row>, d: Disk, b: Buffer, d': Disk, b': Buffer) {
    && Shows(image, d', b', key) && b'.Keys <= b.Keys + {key}
    && forall k | k != key :: Lookup(d', b', k) == Lookup(d, b, k)
  }

  ghost predicate RedoneTo(log: Log, aborted: set<TxId>, d: Disk, b: Buffer, d': Disk, b': Buffer) {
    forall k :: var last := LastRedone(log, k, aborted);
      if last.None? then Lookup(d', b', k) == Lookup(d, b, k) else Shows(last.value.after, d', b', k)
  }

  /** Of the operations to undo under each key some are left, or the last one to undo has been undone. */
  ghost predicate UndoneTo(log: Log, i: nat, left: set<TxId>, undo: set<TxId>, d: Disk, b: Buffer, d': Disk, b': Buffer)
    requires i <= |log|
  {
    forall k :: var rest, last := LastUndone(log[..i], k, left), LastUndone(log, k, undo);
      if rest.Some? then last == rest
      else if last.None? then Lookup(d', b', k) == Lookup(d, b, k)
      else Shows(last.value.before, d', b', k)
  }

  lemma RedoneMore(log: Log, e: Entry, aborted: set<TxId>, d: Disk, b: Buffer, d1: Disk, b1: Buffer, d2: Disk, b2: Buffer)
    requires RedoneTo(log, aborted, d, b, d1, b1)
    requires if Effective(e) && e.tx !in aborted then Put(e.key, e.after, d1, b1, d2, b2) else d2 == d1 && b2 == b1
    ensures RedoneTo(log + [e], aborted, d, b, d2, b2)
  {
    hide Lookup, Put, Shows, LastRedone;
    forall k ensures var last := LastRedone(log + [e], k, aborted);
      if last.None? then Lookup(d2, b2, k) == Lookup(d, b, k) else Shows(last.value.after, d2, b2, k)
    {
      LastRedoneMore(log, e, k, aborted);
      if Effective(e) && e.tx !in aborted {
        PutKeeps(e.key, e.after, d1, b1, d2, b2, k);
      }
    }
  }

  lemma NothingRedone(aborted: set<TxId>, d: Disk, b: Buffer)
    ensures RedoneTo([], aborted, d, b, d, b)
  {
  }

  lemma LastRedoneMore(log: Log, e: Entry, k: Key, aborted: set<TxId>)
    ensures LastRedone(log + [e], k, aborted) == if OpOn(e, k) && e.tx !in aborted then Some(e) else LastRedone(log, k, aborted)
  {
    assert (log + [e])[..|log|] == log;
  }

  lemma PutKeeps(key: Key, image: Option<Row>, d: Disk, b: Buffer, d': Disk, b': Buffer, k: Key)
    requires Put(key, image, d, b, d', b')
    ensures k == key ==> Shows(image, d', b', k)
    ensures k != key ==> Lookup(d', b', k) == Lookup(d, b, k) && forall old_ :: Shows(old_, d, b, k) ==> Shows(old_, d', b', k)
  {
    hide Lookup;
  }

  lemma UndoneMore(log: Log, i: nat, left: set<TxId>, undo: set<TxId>, d: Disk, b: Buffer, d1: Disk, b1: Buffer, d2: Disk, b2: Buffer)
    requires i < |log| && left != {} && UndoneTo(log, i + 1, left, undo, d, b, d1, b1)
    requires if Effective(log[i]) && log[i].tx in left then Put(log[i].key, log[i].before, d1, b1, d2, b2) else d2 == d1 && b2 == b1
    ensures UndoneTo(log, i, if IsStart(log[i], left) then left - {log[i].tx} else left, undo, d, b, d2, b2)
  {
    hide Lookup, Put, Shows, LastUndone;
    var left' := if IsStart(log[i], left) then left - {log[i].tx} else left;
    forall k ensures var rest, last := LastUndone(log[..i], k, left'), LastUndone(log, k, undo);
      if rest.Some? then last == rest
      else if last.None? then Lookup(d2, b2, k) == Lookup(d, b, k)
      else Shows(last.value.before, d2, b2, k)
    {
      LastUndoneLess(log, i, left, k);
      if Effective(log[i]) && log[i].tx in left {
        PutKeeps(log[i].key, log[i].before, d1, b1, d2, b2, k);
      }
    }
  }

  lemma LastUndoneLess(log: Log, i: nat, left: set<TxId>, k: Key)
    requires i < |log| && left != {}
    ensures var rest := LastUndone(log[..i], k, if IsStart(log[i], left) then left - {log[i].tx} else left);
            LastUndone(log[..i + 1], k, left) == if rest.None? && OpOn(log[i], k) && log[i].tx in left then Some(log[i]) else rest
  {
    assert log[..i + 1][..i] == log[..i];
  }

  lemma NobodyToUndo(log: Log)
    ensures Trail(log, {}) == [] && forall b :: UndoAll(b, log, {}) == b
  {
  }

  lemma NothingToUndo(b: Buffer, log: Log, undo: set<TxId>)
    requires log == [] || undo == {}
    ensures UndoAll(b, log, undo) == b && Trail(log, undo) == []
  {
  }

  /** The last entry of a part of the log is undone first. */
  lemma UndoLast(b: Buffer, log: Log, i: nat, undo: set<TxId>)
    requires i < |log| && undo != {}
    ensures var e, rest := log[i], log[..i];
            if Effective(e) && e.tx in undo then
              && UndoAll(b, log[..i + 1], undo) == UndoAll(Undone(b, e), rest, undo)
              && Trail(log[..i + 1], undo) == [Compensation(e.tx, e.key, e.after, e.before)] + Trail(rest, undo)
            else if IsStart(e, undo) then
              && UndoAll(b, log[..i + 1], undo) == UndoAll(b, rest, undo - {e.tx})
              && Trail(log[..i + 1], undo) == [Lifecycle(e.tx, Abort)] + Trail(rest, undo - {e.tx})
            else UndoAll(b, log[..i + 1], undo) == UndoAll(b, rest, undo) && Trail(log[..i + 1], undo) == Trail(rest, undo)
  {
    hide Undone;
    assert log[..i + 1][..i] == log[..i];
  }

  lemma NothingUndone(log: Log, undo: set<TxId>, d: Disk, b: Buffer)
    ensures UndoneTo(log, |log|, undo, undo, d, b, d, b)
  {
    assert log[..|log|] == log;
  }

  ghost predicate ListUndone(operations: Log, d: Disk, b: Buffer, d': Disk, b': Buffer) {
    forall k :: var last := LastOn(operations, k);
      if last.None? then Lookup(d', b', k) == Lookup(d, b, k) else Shows(last.value.before, d', b', k)
  }

  lemma {:induction false} LastOnMore(operations: Log, e: Entry, k: Key)
    ensures LastOn(operations + [e], k) == if OpOn(e, k) then Some(e) else LastOn(operations, k)
    decreases operations
  {
    var more := operations + [e];
    if operations == [] {
      assert more[1..] == [];
    } else {
      assert more[0] == operations[0] && more[1..] == operations[1..] + [e];
      LastOnMore(operations[1..], e, k);
    }
  }

  lemma ListUndoneMore(operations: Log, e: Entry, d: Disk, b: Buffer, d1: Disk, b1: Buffer, d2: Disk, b2: Buffer)
    requires Effective(e) && ListUndone(operations, d, b, d1, b1) && Put(e.key, e.before, d1, b1, d2, b2)
    ensures ListUndone(operations + [e], d, b, d2, b2)
  {
    hide Lookup, LastOn;
    forall k ensures var last := LastOn(operations + [e], k);
      if last.None? then Lookup(d2, b2, k) == Lookup(d, b, k) else Shows(last.value.before, d2, b2, k)
    {
      LastOnMore(operations, e, k);
    }
  }

  lemma Aborting(log: Log, tx: TxId, d: Disk, b: Buffer, d1: Disk, b1: Buffer, d2: Disk, b2: Buffer)
    requires ListUndone(SinceStart(log, tx), d, b, d1, b1) && forall k :: Lookup(d2, b2, k) == Lookup(d1, b1, k)
    ensures forall k :: var last := LastUndone(log, k, {tx});
              && (last.None? ==> Lookup(d2, b2, k) == Lookup(d, b, k))
              && (last.Some? && last.value.before.Some? ==> Lookup(d2, b2, k) == last.value.before)
  {
    hide Lookup, LastOn, SinceStart, LastUndone;
    forall k ensures LastOn(SinceStart(log, tx), k) == LastUndone(log, k, {tx}) {
      LastOnIsUndone(log, tx, k);
    }
  }

  lemma NoneUndone(d: Disk, b: Buffer)
    ensures ListUndone([], d, b, d, b)
  {
  }

  /** Both passes and a flush: the aim of recovery is reached under every key but those whose row was taken
      out of the buffer last. */
  lemma PassesReach(log: Log, d: Disk, b: Buffer, d1: Disk, b1: Buffer, d2: Disk, b2: Buffer, i: nat, left: set<TxId>, d3: Disk)
    requires RedoneTo(After(log), Aborted(After(log)), d, b, d1, b1)
    requires i <= |log| && (i == 0 || left == {}) && UndoneTo(log, i, left, Losers(log), d1, b1, d2, b2)
    requires forall k :: OnDisk(d3, k) == Lookup(d2, b2, k)
    ensures forall k | !Pops(log, k) :: OnDisk(d3, k) == Intended(log, k, Lookup(d, b, k))
  {
    hide Lookup, OnDisk;
  }

  class RecoveryEngine {
    const bm: BM.BufferManager

    constructor (bm: BM.BufferManager)
      ensures this.bm == bm
    {
      this.bm := bm;
    }

    method ApplyRedo(e: Entry, ghost keys: set<Key>)
      requires bm.Valid() && Effective(e) && Proper(e, bm.disk)
      modifies bm
      ensures bm.Valid() && bm.log == old(bm.log) && bm.disk.Keys == old(bm.disk.Keys)
      ensures Put(e.key, e.after, old(bm.disk), old(bm.bufferData), bm.disk, bm.bufferData)
      ensures old(bm.bufferData).Keys <= keys && e.key in keys && |keys| <= bm.capacity ==>
        bm.disk == old(bm.disk) && bm.bufferData == Redone(old(bm.bufferData), e) && bm.bufferData.Keys <= keys
    {
      hide Good, OnDisk, BM.NoDupKeys, BM.Touched, BM.Room, BM.Without, Lookup, Steps.DiskFollows;
      if old(bm.bufferData).Keys <= keys && e.key in keys && e.key !in bm.bufferData {
        RoomForOne(bm.bufferData, keys, e.key);
      }
      if e.after.Some? {
        bm.WriteForRecovery(e.key, e.after.value);
      } else {
        bm.DeleteForRecovery(e.key);
      }
      assert forall k :: Lookup(bm.disk, bm.bufferData, k) == bm.See(k);
      assert forall k :: old(Lookup(bm.disk, bm.bufferData, k)) == old(bm.See(k));
    }

    method ApplyUndo(e: Entry, ghost keys: set<Key>)
      requires bm.Valid() && Effective(e) && Proper(e, bm.disk)
      modifies bm
      ensures bm.Valid() && bm.log == old(bm.log) && bm.disk.Keys == old(bm.disk.Keys)
      ensures Put(e.key, e.before, old(bm.disk), old(bm.bufferData), bm.disk, bm.bufferData)
      ensures old(bm.bufferData).Keys <= keys && e.key in keys && |keys| <= bm.capacity ==>
        bm.disk == old(bm.disk) && bm.bufferData == Undone(old(bm.bufferData), e) && bm.bufferData.Keys <= keys
    {
      hide Good, OnDisk, BM.NoDupKeys, BM.Touched, BM.Room, BM.Without, Lookup, Steps.DiskFollows;
      if old(bm.bufferData).Keys <= keys && e.key in keys && e.key !in bm.bufferData {
        RoomForOne(bm.bufferData, keys, e.key);
      }
      if e.before.Some? {
        bm.WriteForRecovery(e.key, e.before.value);
      } else {
        bm.DeleteForRecovery(e.key);
      }
      assert forall k :: Lookup(bm.disk, bm.bufferData, k) == bm.See(k);
      assert forall k :: old(Lookup(bm.disk, bm.bufferData, k)) == old(bm.See(k));
    }

    method FindLastCheckpoint() returns (found: bool, ongoing: set<TxId>, after: Log)
      ensures found == (Since(bm.log) > 0) && ongoing == Ongoing(bm.log) && after == After(bm.log)
    {
      var i, log := |bm.log|, bm.log;
      var backward: Log := [];
      assert log[..i] == log && log[i..] == [];
      while i > 0
        invariant 0 <= i <= |log| && Since(log[..i]) == Since(log) && Reverse(backward) == log[i..]
      {
        i := i - 1;
        assert log[..i + 1][..i] == log[..i];
        if log[i].Checkpoint? {
          return true, log[i].ongoing, Reverse(backward);
        }
        assert log[i..] == [log[i]] + log[i + 1..];
        ReverseJoin(backward, [log[i]]);
        ReverseFew(log[i]);
        backward := backward + [log[i]];
      }
      assert log[..0] == [] && log[0..] == log;
      found, ongoing, after := false, {}, Reverse(backward);
    }

    method Redo(after: Log, ongoing: set<TxId>, ghost keys: set<Key>) returns (undo: set<TxId>)
      requires bm.Valid() && ProperLog(after, bm.disk)
      modifies bm
      ensures bm.Valid() && bm.log == old(bm.log) && bm.disk.Keys == old(bm.disk.Keys) && undo == Unfinished(after, ongoing)
      ensures RedoneTo(after, Aborted(after), old(bm.disk), old(bm.bufferData), bm.disk, bm.bufferData)
      ensures old(bm.bufferData).Keys <= keys && KeysOf(after) <= keys && |keys| <= bm.capacity ==>
        bm.disk == old(bm.disk) && bm.bufferData == RedoAll(old(bm.bufferData), after, Aborted(after)) && bm.bufferData.Keys <= keys
    {
      hide Good, Lookup, OnDisk, BM.NoDupKeys, RedoneTo, Put, Redone, KeysOf;
      var aborted := FindAborted(after);
      undo := ongoing;
      NothingRedone(aborted, bm.disk, bm.bufferData);
      assert after[..0] == [];
      var i := 0;
      ghost var room := bm.bufferData.Keys <= keys && KeysOf(after) <= keys && |keys| <= bm.capacity;
      while i < |after|
        invariant i <= |after| && bm.Valid() && bm.log == old(bm.log) && bm.disk.Keys == old(bm.disk.Keys)
        invariant undo == Unfinished(after[..i], ongoing)
        invariant RedoneTo(after[..i], aborted, old(bm.disk), old(bm.bufferData), bm.disk, bm.bufferData)
        invariant room ==> bm.disk == old(bm.disk) && bm.bufferData.Keys <= keys
        invariant room ==> bm.bufferData == RedoAll(old(bm.bufferData), after[..i], aborted)
      {
        var e := after[i];
        ghost var d1, b1 := bm.disk, bm.bufferData;
        assert after[..i + 1][..i] == after[..i] && after[..i + 1] == after[..i] + [e];
        assert Proper(e, bm.disk);
        if Effective(e) {
          KeyOf(after, i);
          InKeys(after, i, keys);
          if e.tx !in aborted {
            ApplyRedo(e, keys);
          }
        } else if e.Lifecycle? {
          undo := if e.action == Start then undo + {e.tx} else undo - {e.tx};
        }
        RedoneMore(after[..i], e, aborted, old(bm.disk), old(bm.bufferData), d1, b1, bm.disk, bm.bufferData);
        i := i + 1;
      }
      assert after[..i] == after;
    }

    method Undo(undo: set<TxId>, ghost keys: set<Key>) returns (ghost at: nat, ghost left: set<TxId>)
      requires bm.Valid() && ProperLog(bm.log, bm.disk)
      modifies bm
      ensures bm.Valid() && bm.log == old(bm.log) + Trail(old(bm.log), undo) && bm.disk.Keys == old(bm.disk.Keys)
      ensures at <= |old(bm.log)| && (at == 0 || left == {})
      ensures UndoneTo(old(bm.log), at, left, undo, old(bm.disk), old(bm.bufferData), bm.disk, bm.bufferData)
      ensures old(bm.bufferData).Keys <= keys && KeysOf(old(bm.log)) <= keys && |keys| <= bm.capacity ==>
        bm.disk == old(bm.disk) && bm.bufferData == UndoAll(old(bm.bufferData), old(bm.log), undo)
    {
      hide Good, Lookup, OnDisk, BM.NoDupKeys, UndoneTo, Put, UndoAll, Trail, KeysOf, Undone;
      NobodyToUndo(bm.log);
      // The log as it was: what is appended meanwhile is not read.
      var log, todo, i := bm.log, undo, |bm.log|;
      ghost var trail: Log := [];
      ghost var room := bm.bufferData.Keys <= keys && KeysOf(log) <= keys && |keys| <= bm.capacity;
      NothingUndone(log, undo, bm.disk, bm.bufferData);
      assert log[..i] == log && trail + Trail(log, undo) == Trail(log, undo) && log + trail == log;
      while i > 0 && todo != {}
        invariant 0 <= i <= |log| && bm.Valid() && bm.disk.Keys == old(bm.disk.Keys) && ProperLog(log, bm.disk)
        invariant bm.log == log + trail && trail + Trail(log[..i], todo) == Trail(log, undo)
        invariant UndoneTo(log, i, todo, undo, old(bm.disk), old(bm.bufferData), bm.disk, bm.bufferData)
        invariant room ==> bm.disk == old(bm.disk) && bm.bufferData.Keys <= keys
        invariant room ==> UndoAll(bm.bufferData, log[..i], todo) == UndoAll(old(bm.bufferData), log, undo)
      {
        i := i - 1;
        var e := log[i];
        ghost var d1, b1, todo1 := bm.disk, bm.bufferData, todo;
        assert log[..i + 1][..i] == log[..i] && Proper(e, bm.disk);
        UndoLast(bm.bufferData, log, i, todo);
        if Effective(e) && e.tx in todo {
          KeyOf(log, i);
          InKeys(log, i, keys);
          ApplyUndo(e, keys);
          var compensation := Compensation(e.tx, e.key, e.after, e.before);
          Longer(log, trail, compensation, Trail(log[..i], todo));
          bm.log := bm.log + [compensation];
          trail := trail + [compensation];
        } else if IsStart(e, todo) {
          Longer(log, trail, Lifecycle(e.tx, Abort), Trail(log[..i], todo - {e.tx}));
          bm.log := bm.log + [Lifecycle(e.tx, Abort)];
          trail := trail + [Lifecycle(e.tx, Abort)];
          todo := todo - {e.tx};
        }
        UndoneMore(log, i, todo1, undo, old(bm.disk), old(bm.bufferData), d1, b1, bm.disk, bm.bufferData);
      }
      NobodyToUndo(log[..i]);
      NothingToUndo(bm.bufferData, log[..i], todo);
      assert trail + [] == trail;
      at, left := i, todo;
    }

    /** Recovery: its aim is on disk under every key but those whose row it takes out of the buffer last; under
        those the disk has what it had, if nothing was evicted meanwhile. */
    method Recover()
      requires bm.Valid() && ProperLog(bm.log, bm.disk)
      modifies bm
      ensures bm.Valid() && bm.log == old(bm.log) + Trail(old(bm.log), Losers(old(bm.log)))
      ensures forall k :: OnDisk(bm.disk, k) == bm.See(k)
      ensures forall k | !Pops(old(bm.log), k) :: OnDisk(bm.disk, k) == Intended(old(bm.log), k, old(bm.See(k)))
      ensures Room(old(bm.bufferData), old(bm.log), bm.capacity) ==>
        forall k :: OnDisk(bm.disk, k) == Lookup(old(bm.disk), Recovered(old(bm.bufferData), old(bm.log)), k)
    {
      hide RedoneTo, UndoneTo;
      ghost var log, d, b := bm.log, bm.disk, bm.bufferData;
      ghost var keys := bm.bufferData.Keys + KeysOf(bm.log);
      var found, ongoing, after := FindLastCheckpoint();
      ProperAfter(bm.log, bm.disk);
      var undo := Redo(after, ongoing, keys);
      SameTables(bm.log, old(bm.disk), bm.disk);
      ghost var d1, b1 := bm.disk, bm.bufferData;
      ghost var at, left := Undo(undo, keys);
      ghost var d2, b2 := bm.disk, bm.bufferData;
      bm.FlushDirtyBlocks();
      PassesReach(log, d, b, d1, b1, d2, b2, at, left, bm.disk);
    }

    /** Rollback of one transaction: a compensation for each of its operations, and on disk their undoing:
        the first before-image, or, if there is none, what the disk has, as it was if nothing was evicted. */
    method AbortTransaction(tx: TxId)
      requires bm.Valid() && ProperLog(bm.log, bm.disk)
      modifies bm
      ensures bm.Valid() && bm.disk.Keys == old(bm.disk.Keys) && forall k :: OnDisk(bm.disk, k) == bm.See(k)
      ensures bm.log == old(bm.log) + Compensations(SinceStart(old(bm.log), tx))
      ensures LogsReversals(old(bm.log), tx, bm.log[|old(bm.log)|..])
      ensures forall k :: var last := LastUndone(old(bm.log), k, {tx});
                && (last.None? ==> bm.See(k) == old(bm.See(k)))
                && (last.Some? && last.value.before.Some? ==> bm.See(k) == last.value.before)
      ensures Room(old(bm.bufferData), old(bm.log), bm.capacity) ==>
        forall k :: OnDisk(bm.disk, k) == Lookup(old(bm.disk), UndoAll(old(bm.bufferData), old(bm.log), {tx}), k)
    {
      hide LogsReversals;
      ghost var keys, was := bm.bufferData.Keys + KeysOf(bm.log), bm.log;
      var operations := OperationsOf(tx);
      UndoingLogs(was, tx);
      UndoEachIsUndoAll(bm.bufferData, was, tx);
      ghost var d, b := bm.disk, bm.bufferData;
      UndoOperations(operations, keys);
      ghost var d1, b1 := bm.disk, bm.bufferData;
      bm.FlushDirtyBlocks();
      assert forall k :: Lookup(bm.disk, bm.bufferData, k) == bm.See(k) == Lookup(d1, b1, k);
      Aborting(was, tx, d, b, d1, b1, bm.disk, bm.bufferData);
      assert bm.log[|was|..] == Compensations(operations);
    }

    method UndoOperations(operations: Log, ghost keys: set<Key>)
      requires bm.Valid() && forall e | e in operations :: Effective(e) && Proper(e, bm.disk) && e.key in keys
      modifies bm
      ensures bm.Valid() && bm.disk.Keys == old(bm.disk.Keys) && bm.log == old(bm.log) + Compensations(operations)
      ensures ListUndone(operations, old(bm.disk), old(bm.bufferData), bm.disk, bm.bufferData)
      ensures old(bm.bufferData).Keys <= keys && |keys| <= bm.capacity ==>
        bm.disk == old(bm.disk) && bm.bufferData == UndoEach(old(bm.bufferData), operations)
    {
      hide Good, Lookup, OnDisk, BM.NoDupKeys, Undone, ListUndone, Put;
      ghost var room := bm.bufferData.Keys <= keys && |keys| <= bm.capacity;
      var i := 0;
      NoneUndone(bm.disk, bm.bufferData);
      assert operations[0..] == operations && operations[..0] == [];
      while i < |operations|
        invariant i <= |operations| && bm.Valid() && bm.disk.Keys == old(bm.disk.Keys)
        invariant bm.log + Compensations(operations[i..]) == old(bm.log) + Compensations(operations)
        invariant ListUndone(operations[..i], old(bm.disk), old(bm.bufferData), bm.disk, bm.bufferData)
        invariant room ==> bm.disk == old(bm.disk) && bm.bufferData.Keys <= keys
        invariant room ==> UndoEach(bm.bufferData, operations[i..]) == UndoEach(old(bm.bufferData), operations)
      {
        var e := operations[i];
        ghost var d1, b1 := bm.disk, bm.bufferData;
        assert Effective(e) && operations[i..][0] == e && operations[i..][1..] == operations[i + 1..];
        assert Proper(e, bm.disk) && operations[..i + 1] == operations[..i] + [e];
        ApplyUndo(e, keys);
        Next(bm.log, Compensation(e.tx, e.key, e.after, e.before), Compensations(operations[i + 1..]));
        ListUndoneMore(operations[..i], e, old(bm.disk), old(bm.bufferData), d1, b1, bm.disk, bm.bufferData);
        bm.log := bm.log + [Compensation(e.tx, e.key, e.after, e.before)];
        i := i + 1;
      }
      assert operations[i..] == [] && bm.log + [] == bm.log && operations[..i] == operations;
    }

    method OperationsOf(tx: TxId) returns (operations: Log)
      requires ProperLog(bm.log, bm.disk)
      ensures operations == SinceStart(bm.log, tx)
      ensures forall e | e in operations :: Effective(e) && Proper(e, bm.disk) && e.key in KeysOf(bm.log)
    {
      operations := [];
      var log, i := bm.log, |bm.log|;
      assert log[..i] == log && operations + SinceStart(log, tx) == SinceStart(log, tx);
      while i > 0
        invariant 0 <= i <= |log| && operations + SinceStart(log[..i], tx) == SinceStart(log, tx)
        invariant forall e | e in operations :: Effective(e) && Proper(e, bm.disk) && e.key in KeysOf(log)
      {
        i := i - 1;
        var e := log[i];
        assert log[..i + 1][..i] == log[..i] && Proper(e, bm.disk);
        if e == Lifecycle(tx, Start) {
          assert operations + [] == operations;
          return;
        }
        if Effective(e) && e.tx == tx {
          KeyOf(log, i);
          Next(operations, e, SinceStart(log[..i], tx));
          operations := operations + [e];
        }
      }
      assert operations + [] == operations;
    }
  }
}
