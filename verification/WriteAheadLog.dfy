/** The log: what is written to it, and what a prefix or a part of it says about the rows. */
module WriteAheadLog {
  import opened Wrappers
  import opened BufferPool

  type TxId = int

  datatype Action = Start | Commit | Abort

  /** An operation is an insertion, a deletion or an update by which of its two images it has. */
  datatype Entry =
    | Lifecycle(tx: TxId, action: Action)
    | Operation(tx: TxId, key: Key, before: Option<Row>, after: Option<Row>)
    | Compensation(tx: TxId, key: Key, before: Option<Row>, after: Option<Row>)
    | Checkpoint(ongoing: set<TxId>)

  type Log = seq<Entry>

  /** The entry `log_operation` writes, if it writes one. */
  function Logged(tx: TxId, key: Key, before: Option<Row>, after: Option<Row>): Log {
    if before.None? && after.None? then [] else [Operation(tx, key, before, after)]
  }

  /** The value of a key after the operations of a log, from its value before them. */
  function Replay(log: Log, k: Key, base: Option<Row>): Option<Row> {
    if log == [] then base
    else
      var e := log[|log| - 1];
      if e.Operation? && e.key == k then e.after else Replay(log[..|log| - 1], k, base)
  }

  /** An insertion, update or deletion; an entry with neither image is none of them. */
  predicate Effective(e: Entry) {
    e.Operation? && (e.before.Some? || e.after.Some?)
  }

  /** Entries as the buffer manager logs them: images under their own key, in tables there are. */
  ghost predicate Proper(e: Entry, d: Disk) {
    e.Operation? ==> e.key.table in d && (e.before.Some? ==> e.before.value.pk == e.key.pk) && (e.after.Some? ==> e.after.value.pk == e.key.pk)
  }

  ghost predicate ProperLog(log: Log, d: Disk) {
    forall i | 0 <= i < |log| :: Proper(log[i], d)
  }

  lemma SameTables(log: Log, d: Disk, d': Disk)
    requires ProperLog(log, d) && d'.Keys == d.Keys
    ensures ProperLog(log, d')
  {
    forall i | 0 <= i < |log| ensures Proper(log[i], d') {
      assert Proper(log[i], d);
    }
  }

  /** Each operation has an image, and its before-image is the value the operations before it left. */
  ghost predicate Faithful(log: Log, base: Key -> Option<Row>) {
    forall i | 0 <= i < |log| && log[i].Operation? :: FaithfulAt(log, i, base)
  }

  ghost predicate FaithfulAt(log: Log, i: nat, base: Key -> Option<Row>)
    requires i < |log| && log[i].Operation?
  {
    Effective(log[i]) && log[i].before == Replay(log[..i], log[i].key, base(log[i].key))
  }

  /** The first before-image of a key, or the value after the log if there is none. */
  function Rewound(log: Log, k: Key, now: Option<Row>): Option<Row> {
    if log == [] then now
    else if log[0].Operation? && log[0].key == k then log[0].before
    else Rewound(log[1..], k, now)
  }

  lemma ReplayMore(log: Log, e: Entry, k: Key, base: Option<Row>)
    ensures Replay(log + [e], k, base) == if e.Operation? && e.key == k then e.after else Replay(log, k, base)
  {
    assert (log + [e])[..|log|] == log;
  }

  /** In a faithful log the before-images lead from the last state back to every earlier one. */
  lemma {:induction false} BeforeImagesRewind(log: Log, i: nat, k: Key, base: Key -> Option<Row>)
    requires Faithful(log, base) && i <= |log|
    ensures Rewound(log[i..], k, Replay(log, k, base(k))) == Replay(log[..i], k, base(k))
    decreases |log| - i
  {
    if i == |log| {
      assert log[..i] == log;
    } else {
      BeforeImagesRewind(log, i + 1, k, base);
      ReplayMore(log[..i], log[i], k, base(k));
      assert log[..i + 1] == log[..i] + [log[i]] && log[i..][1..] == log[i + 1..];
      assert log[i].Operation? ==> FaithfulAt(log, i, base);
    }
  }

  /** One more entry. */
  lemma FaithfulMore(log: Log, e: Entry, base: Key -> Option<Row>)
    ensures Faithful(log + [e], base) <==>
              Faithful(log, base) && (e.Operation? ==> Effective(e) && e.before == Replay(log, e.key, base(e.key)))
  {
    var more := log + [e];
    assert more[..|log|] == log && more[|log|] == e;
    assert forall i | 0 <= i < |log| :: more[i] == log[i] && more[..i] == log[..i];
    if Faithful(more, base) {
      assert e.Operation? ==> FaithfulAt(more, |log|, base);
      forall i | 0 <= i < |log| && log[i].Operation? ensures FaithfulAt(log, i, base) {
        assert FaithfulAt(more, i, base);
      }
    }
    if Faithful(log, base) && (e.Operation? ==> Effective(e) && e.before == Replay(log, e.key, base(e.key))) {
      forall i | 0 <= i < |more| && more[i].Operation? ensures FaithfulAt(more, i, base) {
        assert i < |log| ==> FaithfulAt(log, i, base);
      }
    }
  }

  // A key and two rows under it, for the instances of what can go wrong.

  const TEN: Key := Key("t", 10)
  const OLD: Row := Row(10, 0)
  const NEW: Row := Row(10, 1)
}
