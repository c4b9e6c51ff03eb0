/** What recovery and rollback make of the log, and when that is what they are for. */
module Recovery {
  import opened Wrappers
  import opened BufferPool
  import opened WriteAheadLog

  // ---- single operations ----

  predicate OpOn(e: Entry, k: Key) {
    Effective(e) && e.key == k
  }

  function Redone(b: Buffer, e: Entry): Buffer
    requires Effective(e)
  {
    if e.after.Some? then b[e.key := Buffered(e.after, true, false)] else b - {e.key}
  }

  function Undone(b: Buffer, e: Entry): Buffer
    requires Effective(e)
  {
    if e.before.Some? then b[e.key := Buffered(e.before, true, false)] else b - {e.key}
  }

  // ---- the passes ----

  /** The position after the last checkpoint, and the transactions it lists. */
  function Since(log: Log): (i: nat)
    ensures i <= |log| && (i > 0 ==> log[i - 1].Checkpoint?) && forall j | i <= j < |log| :: !log[j].Checkpoint?
  {
    if log == [] || log[|log| - 1].Checkpoint? then |log| else Since(log[..|log| - 1])
  }

  function Ongoing(log: Log): set<TxId> {
    if Since(log) == 0 then {} else log[Since(log) - 1].ongoing
  }

  function Aborted(log: Log): set<TxId> {
    set i | 0 <= i < |log| && log[i].Lifecycle? && log[i].action == Abort :: log[i].tx
  }

  /** Who is still to be undone after a log, from who was before it. */
  function Unfinished(log: Log, undo: set<TxId>): set<TxId> {
    if log == [] then undo
    else
      var e, u := log[|log| - 1], Unfinished(log[..|log| - 1], undo);
      if !e.Lifecycle? then u else if e.action == Start then u + {e.tx} else u - {e.tx}
  }

  function RedoAll(b: Buffer, log: Log, aborted: set<TxId>): Buffer {
    if log == [] then b
    else
      var e, b' := log[|log| - 1], RedoAll(b, log[..|log| - 1], aborted);
      if Effective(e) && e.tx !in aborted then Redone(b', e) else b'
  }

  /** Undo from the end of the log backwards, each transaction until its start. */
  function UndoAll(b: Buffer, log: Log, undo: set<TxId>): Buffer
    decreases |log|
  {
    if log == [] || undo == {} then b
    else
      var e, rest := log[|log| - 1], log[..|log| - 1];
      if Effective(e) && e.tx in undo then UndoAll(Undone(b, e), rest, undo)
      else if IsStart(e, undo) then UndoAll(b, rest, undo - {e.tx})
      else UndoAll(b, rest, undo)
  }

  predicate IsStart(e: Entry, undo: set<TxId>) {
    e.Lifecycle? && e.action == Start && e.tx in undo
  }

  /** The buffer recovery ends with, before it flushes. */
  function Recovered(b: Buffer, log: Log): Buffer {
    var after := log[Since(log)..];
    UndoAll(RedoAll(b, after, Aborted(after)), log, Unfinished(after, Ongoing(log)))
  }

  /** The entries undoing writes: a compensation for each operation, an abort for each transaction. */
  function Trail(log: Log, undo: set<TxId>): Log
    decreases |log|
  {
    if log == [] || undo == {} then []
    else
      var e, rest := log[|log| - 1], log[..|log| - 1];
      if Effective(e) && e.tx in undo then [Compensation(e.tx, e.key, e.after, e.before)] + Trail(rest, undo)
      else if IsStart(e, undo) then [Lifecycle(e.tx, Abort)] + Trail(rest, undo - {e.tx})
      else Trail(rest, undo)
  }

  // ---- what becomes of one key ----

  /** The last operation on a key that is redone. */
  function LastRedone(log: Log, k: Key, aborted: set<TxId>): (r: Option<Entry>)
    ensures r.Some? ==> OpOn(r.value, k)
  {
    if log == [] then None
    else
      var e := log[|log| - 1];
      if OpOn(e, k) && e.tx !in aborted then Some(e) else LastRedone(log[..|log| - 1], k, aborted)
  }

  /** The last operation on a key that is undone, which is the first one of those made. */
  function LastUndone(log: Log, k: Key, undo: set<TxId>): (r: Option<Entry>)
    ensures r.Some? ==> OpOn(r.value, k)
    decreases |log|
  {
    if log == [] || undo == {} then None
    else
      var e, rest := log[|log| - 1], log[..|log| - 1];
      var earlier := LastUndone(rest, k, if IsStart(e, undo) then undo - {e.tx} else undo);
      if earlier.None? && OpOn(e, k) && e.tx in undo then Some(e) else earlier
  }

  /** An image written to the buffer is seen; taking a row out of the buffer uncovers the disk. */
  function Uncovered(image: Option<Row>, d: Disk, k: Key): Option<Row> {
    if image.Some? then image else OnDisk(d, k)
  }

  lemma {:induction false} AfterRedo(d: Disk, b: Buffer, log: Log, aborted: set<TxId>, k: Key)
    ensures var last := LastRedone(log, k, aborted);
            Lookup(d, RedoAll(b, log, aborted), k) == if last.None? then Lookup(d, b, k) else Uncovered(last.value.after, d, k)
  {
    if log != [] {
      AfterRedo(d, b, log[..|log| - 1], aborted, k);
    }
  }

  lemma {:induction false} AfterUndo(d: Disk, b: Buffer, log: Log, undo: set<TxId>, k: Key)
    ensures var last := LastUndone(log, k, undo);
            Lookup(d, UndoAll(b, log, undo), k) == if last.None? then Lookup(d, b, k) else Uncovered(last.value.before, d, k)
    decreases |log|
  {
    if log != [] && undo != {} {
      var e, rest := log[|log| - 1], log[..|log| - 1];
      if Effective(e) && e.tx in undo {
        AfterUndo(d, Undone(b, e), rest, undo, k);
      } else {
        AfterUndo(d, b, rest, if IsStart(e, undo) then undo - {e.tx} else undo, k);
      }
    }
  }

  // ---- rollback ----

  function KeysOf(log: Log): set<Key> {
    set i | 0 <= i < |log| && log[i].Operation? :: log[i].key
  }

  /** The buffer has room for every row the log mentions, so nothing is evicted. */
  ghost predicate Room(b: Buffer, log: Log, capacity: nat) {
    |b.Keys + KeysOf(log)| <= capacity
  }

  /** The operations of a transaction since its start, the latest first. */
  function SinceStart(log: Log, tx: TxId): (operations: Log)
    ensures forall e | e in operations :: Effective(e)
    decreases |log|
  {
    if log == [] || log[|log| - 1] == Lifecycle(tx, Start) then []
    else
      var e, rest := log[|log| - 1], SinceStart(log[..|log| - 1], tx);
      if Effective(e) && e.tx == tx then [e] + rest else rest
  }

  /** What is seen under a key once an image has been put back: the image, or what the disk has. */
  predicate Shows(image: Option<Row>, d: Disk, b: Buffer, k: Key) {
    if image.Some? then Lookup(d, b, k) == image else k !in b
  }

  /** The last of the listed operations on a key. */
  function LastOn(operations: Log, k: Key): (r: Option<Entry>)
    ensures r.Some? ==> OpOn(r.value, k)
    decreases operations
  {
    if operations == [] then None
    else
      var later := LastOn(operations[1..], k);
      if later.None? && OpOn(operations[0], k) then Some(operations[0]) else later
  }

  lemma {:induction false} LastOnIsUndone(log: Log, tx: TxId, k: Key)
    ensures LastOn(SinceStart(log, tx), k) == LastUndone(log, k, {tx})
    decreases |log|
  {
    if log != [] {
      var e, rest := log[|log| - 1], log[..|log| - 1];
      if e == Lifecycle(tx, Start) {
        assert {tx} - {tx} == {};
        LastUndoneOfNobody(rest, k);
      } else {
        LastOnIsUndone(rest, tx, k);
        if Effective(e) && e.tx == tx {
          var operations := SinceStart(log, tx);
          assert operations[0] == e && operations[1..] == SinceStart(rest, tx);
        }
      }
    }
  }

  lemma LastUndoneOfNobody(log: Log, k: Key)
    ensures LastUndone(log, k, {}) == None
  {
  }

  /** Undoing the listed operations in their order. */
  function UndoEach(b: Buffer, operations: Log): Buffer
    requires forall e | e in operations :: Effective(e)
    decreases operations
  {
    if operations == [] then b else UndoEach(Undone(b, operations[0]), operations[1..])
  }

  function Compensations(operations: Log): Log
    requires forall e | e in operations :: Effective(e)
  {
    if operations == [] then []
    else
      var e := operations[0];
      assert Effective(e);
      [Compensation(e.tx, e.key, e.after, e.before)] + Compensations(operations[1..])
  }

  lemma {:induction false} UndoEachIsUndoAll(b: Buffer, log: Log, tx: TxId)
    ensures UndoEach(b, SinceStart(log, tx)) == UndoAll(b, log, {tx})
    decreases |log|
  {
    if log != [] {
      var e, rest := log[|log| - 1], log[..|log| - 1];
      if e == Lifecycle(tx, Start) {
        assert {tx} - {tx} == {};
      } else if Effective(e) && e.tx == tx {
        var operations := SinceStart(log, tx);
        assert operations[0] == e && operations[1..] == SinceStart(rest, tx);
        UndoEachIsUndoAll(Undone(b, e), rest, tx);
      } else {
        UndoEachIsUndoAll(b, rest, tx);
      }
    }
  }

  /** No start of the transaction. */
  predicate NoStart(log: Log, tx: TxId) {
    forall i | 0 <= i < |log| :: !(log[i].Lifecycle? && log[i].action == Start && log[i].tx == tx)
  }

  ghost predicate OnlyWriter(log: Log, tx: TxId, k: Key) {
    forall i | 0 <= i < |log| && log[i].Operation? && log[i].key == k :: log[i].tx == tx
  }

  predicate Writes(log: Log, tx: TxId, k: Key) {
    exists i | 0 <= i < |log| :: OpOn(log[i], k) && log[i].tx == tx
  }

  /** The first operation of a transaction on a key. */
  function FirstOp(log: Log, tx: TxId, k: Key): (r: Option<Entry>)
    ensures r.Some? ==> OpOn(r.value, k) && r.value.tx == tx
  {
    if log == [] then None
    else
      var earlier, e := FirstOp(log[..|log| - 1], tx, k), log[|log| - 1];
      if earlier.None? && OpOn(e, k) && e.tx == tx then Some(e) else earlier
  }

  /** Undoing one transaction undoes exactly what it did since its start. */
  lemma {:induction false} UndoneSinceStart(pre: Log, post: Log, tx: TxId, k: Key)
    requires NoStart(post, tx)
    ensures LastUndone(pre + [Lifecycle(tx, Start)] + post, k, {tx}) == FirstOp(post, tx, k)
    decreases |post|
  {
    var log := pre + [Lifecycle(tx, Start)] + post;
    var rest := log[..|log| - 1];
    if post == [] {
      assert log[|log| - 1] == Lifecycle(tx, Start);
      assert {tx} - {tx} == {};
    } else {
      var post' := post[..|post| - 1];
      assert log[|log| - 1] == post[|post| - 1] && rest == pre + [Lifecycle(tx, Start)] + post';
      UndoneSinceStart(pre, post', tx, k);
    }
  }

  /** Rolling a transaction back gives a key it wrote some value exactly if that is the before-image of its
      first operation there, or, if that was an insertion, what the disk has; other keys stay. */
  lemma RollbackRestoresIff(d: Disk, b: Buffer, pre: Log, post: Log, tx: TxId, k: Key, was: Option<Row>)
    requires NoStart(post, tx)
    ensures var now := Lookup(d, UndoAll(b, pre + [Lifecycle(tx, Start)] + post, {tx}), k);
            var first := FirstOp(post, tx, k);
            if first.None? then !Writes(post, tx, k) && now == Lookup(d, b, k)
            else now == was <==> if first.value.before.Some? then first.value.before == was else OnDisk(d, k) == was
  {
    UndoneSinceStart(pre, post, tx, k);
    AfterUndo(d, b, pre + [Lifecycle(tx, Start)] + post, {tx}, k);
    FirstOpFinds(post, tx, k);
  }

  /** With before-images that are right, that is the value at the start, exactly if its first operation
      was no insertion or the disk has no such row. */
  lemma FaithfulRollbackIff(d: Disk, b: Buffer, pre: Log, post: Log, tx: TxId, k: Key, base: Key -> Option<Row>)
    requires NoStart(post, tx) && Faithful(pre + [Lifecycle(tx, Start)] + post, base)
    requires OnlyWriter(post, tx, k) && Writes(post, tx, k)
    ensures var first := FirstOp(post, tx, k);
            && first.Some?
            && (Lookup(d, UndoAll(b, pre + [Lifecycle(tx, Start)] + post, {tx}), k) == Replay(pre, k, base(k))
                <==> first.value.before.Some? || OnDisk(d, k).None?)
  {
    RollbackRestoresIff(d, b, pre, post, tx, k, Replay(pre, k, base(k)));
    FirstOpFinds(post, tx, k);
    FirstIsFaithful(pre, post, tx, k, base);
  }

  lemma {:induction false} FirstOpFinds(log: Log, tx: TxId, k: Key)
    ensures FirstOp(log, tx, k).Some? <==> Writes(log, tx, k)
  {
    if log != [] {
      var rest := log[..|log| - 1];
      FirstOpFinds(rest, tx, k);
      assert forall i | 0 <= i < |rest| :: rest[i] == log[i];
      if Writes(rest, tx, k) {
        var i :| 0 <= i < |rest| && OpOn(rest[i], k) && rest[i].tx == tx;
        assert OpOn(log[i], k);
      }
    }
  }

  lemma {:induction false} FirstIsFaithful(pre: Log, post: Log, tx: TxId, k: Key, base: Key -> Option<Row>)
    requires FirstOp(post, tx, k).Some? && OnlyWriter(post, tx, k)
    requires Faithful(pre + [Lifecycle(tx, Start)] + post, base)
    ensures FirstOp(post, tx, k).value.before == Replay(pre, k, base(k))
    decreases |post|
  {
    var log, n := pre + [Lifecycle(tx, Start)] + post, |post| - 1;
    var post' := post[..n];
    var rest := pre + [Lifecycle(tx, Start)] + post';
    assert log[..|log| - 1] == rest;
    if FirstOp(post', tx, k).Some? {
      FaithfulPrefix(rest, log, base);
      FirstIsFaithful(pre, post', tx, k, base);
    } else {
      assert log[|log| - 1] == post[n] && FaithfulAt(log, |log| - 1, base);
      forall i | 0 <= i < |post'| && post'[i].Operation? && post'[i].key == k ensures Effective(post'[i]) {
        assert post'[i] == log[|pre| + 1 + i] && FaithfulAt(log, |pre| + 1 + i, base);
      }
      NothingYet(pre, post', tx, k, base(k));
    }
  }

  lemma FaithfulPrefix(rest: Log, log: Log, base: Key -> Option<Row>)
    requires Faithful(log, base) && |rest| < |log| && rest == log[..|rest|]
    ensures Faithful(rest, base)
  {
    forall i | 0 <= i < |rest| && rest[i].Operation? ensures FaithfulAt(rest, i, base) {
      assert rest[..i] == log[..i] && rest[i] == log[i] && FaithfulAt(log, i, base);
    }
  }

  /** As long as the only writer has not written, the value is that at the start. */
  lemma {:induction false} NothingYet(pre: Log, post: Log, tx: TxId, k: Key, base: Option<Row>)
    requires OnlyWriter(post, tx, k) && FirstOp(post, tx, k).None?
    requires forall i | 0 <= i < |post| && post[i].Operation? && post[i].key == k :: Effective(post[i])
    ensures Replay(pre + [Lifecycle(tx, Start)] + post, k, base) == Replay(pre, k, base)
    decreases |post|
  {
    var log := pre + [Lifecycle(tx, Start)] + post;
    if post == [] {
      assert log[..|log| - 1] == pre;
    } else {
      assert log[..|log| - 1] == pre + [Lifecycle(tx, Start)] + post[..|post| - 1];
      NothingYet(pre, post[..|post| - 1], tx, k, base);
    }
  }

  // ---- the entries a rollback adds ----

  ghost predicate Descending(ps: seq<nat>) {
    forall i, j | 0 <= i < j < |ps| :: ps[j] < ps[i]
  }

  /** The entry that compensates for another: the same transaction and key, the images exchanged. */
  ghost predicate Reverses(c: Entry, e: Entry) {
    c.Compensation? && e.Operation? && c.tx == e.tx && c.key == e.key && c.before == e.after && c.after == e.before
  }

  lemma PrependDescending(n: nat, ps: seq<nat>)
    requires Descending(ps) && forall p | p in ps :: p < n
    ensures Descending([n] + ps) && forall p :: p in [n] + ps <==> p == n || p in ps
  {
    assert forall i | 0 <= i < |ps| :: ps[i] in ps;
  }

  /** The positions of the transaction's effective operations since its last start, from the end. */
  ghost predicate AreSinceStart(log: Log, tx: TxId, start: nat, ps: seq<nat>) {
    && start <= |log| && (start > 0 ==> log[start - 1] == Lifecycle(tx, Start))
    && (forall j | start <= j < |log| :: log[j] != Lifecycle(tx, Start))
    && Descending(ps) && forall j :: j in ps <==> start <= j < |log| && Effective(log[j]) && log[j].tx == tx
  }

  ghost predicate Picked(log: Log, operations: Log, ps: seq<nat>) {
    |operations| == |ps| && forall i | 0 <= i < |ps| :: ps[i] < |log| && operations[i] == log[ps[i]]
  }

  lemma NothingSince(log: Log, tx: TxId)
    requires log == [] || log[|log| - 1] == Lifecycle(tx, Start)
    ensures AreSinceStart(log, tx, |log|, []) && Picked(log, [], [])
  {
  }

  lemma OneMoreSince(log: Log, tx: TxId, start: nat, ps: seq<nat>, operations: Log)
    requires log != [] && log[|log| - 1] != Lifecycle(tx, Start)
    requires var before := log[..|log| - 1]; AreSinceStart(before, tx, start, ps) && Picked(before, operations, ps)
    ensures var n, e := |log| - 1, log[|log| - 1];
            if Effective(e) && e.tx == tx then AreSinceStart(log, tx, start, [n] + ps) && Picked(log, [e] + operations, [n] + ps)
            else AreSinceStart(log, tx, start, ps) && Picked(log, operations, ps)
  {
    hide Descending, Effective;
    var n: nat, before := |log| - 1, log[..|log| - 1];
    assert forall i | 0 <= i < n :: before[i] == log[i];
    PrependDescending(n, ps);
  }

  /** The operations undone are all the transaction's since its last start, the latest first. */
  lemma {:induction false} SinceStartAre(log: Log, tx: TxId) returns (start: nat, ps: seq<nat>)
    ensures AreSinceStart(log, tx, start, ps) && Picked(log, SinceStart(log, tx), ps)
    decreases |log|
  {
    hide AreSinceStart, Picked;
    if log == [] || log[|log| - 1] == Lifecycle(tx, Start) {
      start, ps := |log|, [];
      NothingSince(log, tx);
    } else {
      var n, e := |log| - 1, log[|log| - 1];
      start, ps := SinceStartAre(log[..n], tx);
      OneMoreSince(log, tx, start, ps, SinceStart(log[..n], tx));
      if Effective(e) && e.tx == tx {
        ps := [n] + ps;
      }
    }
  }

  /** Entry by entry, the added ones reverse those at the positions. */
  ghost predicate ReversesAt(added: Log, log: Log, ps: seq<nat>) {
    |added| == |ps| && forall i | 0 <= i < |ps| :: ps[i] < |log| && Reverses(added[i], log[ps[i]])
  }

  lemma {:induction false} CompensationsReverse(operations: Log)
    requires forall e | e in operations :: Effective(e)
    ensures |Compensations(operations)| == |operations|
    ensures forall i | 0 <= i < |operations| :: Reverses(Compensations(operations)[i], operations[i])
    decreases operations
  {
    if operations != [] {
      var rest := operations[1..];
      CompensationsReverse(rest);
      forall i | 0 <= i < |operations| ensures Reverses(Compensations(operations)[i], operations[i]) {
        assert operations[i] in operations;
        if i > 0 {
          assert rest[i - 1] == operations[i] && Compensations(operations)[i] == Compensations(rest)[i - 1];
        }
      }
    }
  }

  /** The added entries are one for each effective operation of the transaction since its last start, the latest
      first, each reversing its operation. */
  ghost predicate LogsReversals(log: Log, tx: TxId, added: Log) {
    exists start: nat, ps: seq<nat> :: AreSinceStart(log, tx, start, ps) && ReversesAt(added, log, ps)
  }

  lemma UndoingLogs(log: Log, tx: TxId)
    ensures LogsReversals(log, tx, Compensations(SinceStart(log, tx)))
  {
    hide SinceStart, Compensations, AreSinceStart, Effective;
    var start, ps := SinceStartAre(log, tx);
    CompensationsReverse(SinceStart(log, tx));
    assert ReversesAt(Compensations(SinceStart(log, tx)), log, ps);
  }
}
