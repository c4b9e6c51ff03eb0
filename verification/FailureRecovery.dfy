/** `FailureRecoveryManager`: checkpoints and rollbacks, from the buffer manager, the log and the engine. */
module FailureRecovery {
  import opened Wrappers
  import opened BufferPool
  import opened WriteAheadLog
  import opened Recovery
  import opened RecoverySafety
  import opened RecoveryRuns
  import opened RecoveryCalls
  import Steps = BufferSteps
  import opened LogTruncation
  import BM = BufferManager
  import RE = RecoveryEngine

  class FailureRecoveryManager {
    const bm: BM.BufferManager
    const engine: RE.RecoveryEngine

    ghost predicate Valid()
      reads bm
    {
      engine.bm == bm && bm.Valid()
    }

    constructor (bm: BM.BufferManager)
      requires bm.Valid()
      ensures Valid() && this.bm == bm
    {
      var e := new RE.RecoveryEngine(bm);
      this.bm, engine := bm, e;
    }

    /** A checkpoint: the disk shows all one sees, and the log keeps what recovery may still need. */
    method SaveCheckpoint(ongoing: set<TxId>)
      requires Valid()
      modifies bm
      ensures Valid() && forall k :: OnDisk(bm.disk, k) == bm.See(k) == old(bm.See(k))
      ensures var log := old(bm.log) + [Checkpoint(ongoing)];
              if ongoing == {} then bm.log == [Checkpoint({})]
              else exists least :: IsLeast(least, ongoing) && bm.log == Kept(log, |log|, ongoing, least)
    {
      hide Good, Lookup, OnDisk, BM.NoDupKeys, Kept;
      bm.FlushDirtyBlocks();
      ghost var was := bm.log;
      var log := bm.log + [Checkpoint(ongoing)];
      if ongoing == {} {
        SinceIs(was, ongoing, []);
        assert was + [Checkpoint(ongoing)] + [] == log && log[|was|..] == [Checkpoint({})];
        var kept := ClearBeforeCheckpoint(log);
        bm.log := kept;
      } else {
        var kept := ClearBeforeOldest(log, ongoing);
        bm.log := kept;
      }
    }

    /** The abort is logged before the rollback. */
    method AbortTransaction(tx: TxId)
      requires Valid() && ProperLog(bm.log, bm.disk)
      modifies bm
      ensures Valid() && RolledBack(bm.capacity, old(bm.State()), tx, bm.State())
    {
      hide Good, Lookup, OnDisk, BM.NoDupKeys, SinceStart, LastUndone, Room, UndoAll;
      ghost var s := bm.State();
      ghost var log := s.log + [Lifecycle(tx, Abort)];
      bm.log := bm.log + [Lifecycle(tx, Abort)];
      assert ProperLog(bm.log, bm.disk);
      engine.AbortTransaction(tx);
      ghost var s' := bm.State();
      assert forall k :: Steps.See(s', k) == bm.See(k) == OnDisk(s'.disk, k);
      assert forall k :: Steps.See(s, k) == old(bm.See(k));
      forall k ensures UndoneIn(bm.capacity, s, log, tx, s', k) {
        AfterUndo(s.disk, s.buffer, log, {tx}, k);
      }
    }

    method Recover()
      requires Valid() && ProperLog(bm.log, bm.disk)
      modifies bm
      ensures Valid() && bm.log == old(bm.log) + Trail(old(bm.log), Losers(old(bm.log)))
      ensures forall k :: OnDisk(bm.disk, k) == bm.See(k)
      ensures forall k | !Pops(old(bm.log), k) :: OnDisk(bm.disk, k) == Intended(old(bm.log), k, old(bm.See(k)))
      ensures Room(old(bm.bufferData), old(bm.log), bm.capacity) ==>
        forall k :: OnDisk(bm.disk, k) == Lookup(old(bm.disk), Recovered(old(bm.bufferData), old(bm.log)), k)
    {
      engine.Recover();
    }

    /** One call is one step of the runs of `RecoveryRuns`. */
    method Do(c: Call)
      requires Valid() && ProperLog(bm.log, bm.disk) && (c.Ask? ==> Steps.Sensible(c.request, bm.disk))
      modifies bm
      ensures Valid() && ProperLog(bm.log, bm.disk) && bm.disk.Keys == old(bm.disk.Keys)
      ensures Next(bm.capacity, old(bm.State()), c, bm.State())
    {
      hide Good, Lookup, OnDisk, BM.NoDupKeys, SinceStart, UndoneIn, Steps.Entries, Proper;
      ghost var s := bm.State();
      match c {
        case Ask(r) =>
          var logged, clean := bm.Do(r);
          ProperWith(s, r, bm.disk);
        case Begin(tx) =>
          bm.log := bm.log + [Lifecycle(tx, Start)];
          ProperMore(s.log, [Lifecycle(tx, Start)], bm.disk);
        case Finish(tx) =>
          bm.log := bm.log + [Lifecycle(tx, Commit)];
          ProperMore(s.log, [Lifecycle(tx, Commit)], bm.disk);
        case Rollback(tx) =>
          AbortTransaction(tx);
          SameTables(s.log, s.disk, bm.disk);
          ghost var log := s.log + [Lifecycle(tx, Abort)];
          ProperMore(s.log, [Lifecycle(tx, Abort)], bm.disk);
          OnlyCompensations(SinceStart(log, tx));
          ProperMore(log, Compensations(SinceStart(log, tx)), bm.disk);
      }
    }
  }

  lemma ProperMore(log: Log, more: Log, d: Disk)
    requires ProperLog(log, d) && forall i | 0 <= i < |more| :: !more[i].Operation?
    ensures ProperLog(log + more, d)
  {
  }

  lemma ProperWith(s: Steps.State, r: Steps.Request, d: Disk)
    requires Good(s.disk, s.buffer) && Steps.Sensible(r, s.disk) && ProperLog(s.log, s.disk) && d.Keys == s.disk.Keys
    ensures ProperLog(s.log + Steps.Entries(s, r), d)
  {
    hide Good, Proper, Steps.Entries;
    SameTables(s.log, s.disk, d);
    Steps.EntriesProper(s, r, d);
  }

  // ---- a run, a crash, and recovery ----

  /** Any calls after a checkpoint; then a new manager finds the disk and the log, and recovers. If the run was
      disciplined the disk has, under each key, the checkpoint with the changes of those who finished,
      exactly if recovery does not take the row out of the buffer over one on disk. (Where it takes the
      row out, there must be room for the rows the log mentions.) */
  method RunAndRecover(frm: FailureRecoveryManager, calls: seq<Call>, ghost was: Key -> Option<Row>)
    returns (again: FailureRecoveryManager, ghost states: seq<Steps.State>)
    requires frm.Valid() && AtCheckpoint(frm.bm.State(), was) && ProperLog(frm.bm.log, frm.bm.disk)
    requires forall i | 0 <= i < |calls| && calls[i].Ask? :: Steps.Sensible(calls[i].request, frm.bm.disk)
    modifies frm.bm
    ensures again.Valid() && again.bm.capacity == frm.bm.capacity
    ensures IsHistory(frm.bm.capacity, calls, states, was) && states[|calls|] == frm.bm.State()
    ensures var log, d := frm.bm.log, frm.bm.disk;
            Disciplined(frm.bm.capacity, calls, states) ==>
              forall k :: (Pops(log, k) ==> Room(map[], log, frm.bm.capacity)) ==>
                (OnDisk(again.bm.disk, k) == Value(calls, states, calls, k, was(k)) <==> !(Pops(log, k) && OnDisk(d, k).Some?))
  {
    hide Good, Lookup, OnDisk, BM.NoDupKeys, Next, AtCheckpoint, Disciplined, Pops, Room, Recovered, Intended, Value, ProperLog;
    states := [frm.bm.State()];
    var i := 0;
    while i < |calls|
      invariant i <= |calls| && |states| == i + 1 && frm.Valid() && ProperLog(frm.bm.log, frm.bm.disk)
      invariant frm.bm.disk.Keys == old(frm.bm.disk.Keys) && states[i] == frm.bm.State() && AtCheckpoint(states[0], was)
      invariant forall j | 0 <= j < i :: Next(frm.bm.capacity, states[j], calls[j], states[j + 1])
    {
      if calls[i].Ask? {
        Steps.SameSensible(calls[i].request, old(frm.bm.disk), frm.bm.disk);
      }
      frm.Do(calls[i]);
      states := states + [frm.bm.State()];
      i := i + 1;
    }
    ghost var s := frm.bm.State();
    GoodTables(s);
    var bm := new BM.BufferManager(frm.bm.capacity, frm.bm.disk);
    bm.log := frm.bm.log;
    again := new FailureRecoveryManager(bm);
    forall k ensures bm.See(k) == OnDisk(s.disk, k) {
      BM.NotBuffered(bm.disk, bm.bufferData, k);
    }
    again.Recover();
    if Disciplined(frm.bm.capacity, calls, states) {
      forall k | Pops(s.log, k) ==> Room(map[], s.log, frm.bm.capacity)
        ensures OnDisk(bm.disk, k) == Value(calls, states, calls, k, was(k))
                <==> !(Pops(s.log, k) && OnDisk(s.disk, k).Some?)
      {
        RecoveredByCalls(frm.bm.capacity, calls, states, was, k);
        WithoutPop(s.disk, s.log, k);
      }
    }
  }

  lemma GoodTables(s: Steps.State)
    requires Good(s.disk, s.buffer)
    ensures forall t | t in s.disk :: NoDup(s.disk[t])
  {
  }

  lemma WithoutPop(d: Disk, log: Log, k: Key)
    ensures !Pops(log, k) ==> Lookup(d, Recovered(map[], log), k) == Intended(log, k, OnDisk(d, k))
  {
    RecoversIff(d, log, k, OnDisk(d, k));
  }
}
