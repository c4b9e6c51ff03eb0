/** The lock-based engine as the program runs it: a lock table and a transaction table changed in
    place, with aborts called back from the middle of a request. Every public method is one step of
    `LockTable.Next`, so what `LockSafety` and `LockLiveness` prove of runs holds of its calls. */
module LockManager {
  import opened Wrappers
  import opened WaitsFor
  import opened Serializability
  import opened LockTable
  import opened LockSafety

  lemma AbortsCompose(s: State, ts: set<TxId>, t: TxId)
    ensures AbortAll(AbortAll(s, ts), {t}) == AbortAll(s, ts + {t})
  {
    var l, r := AbortAll(AbortAll(s, ts), {t}), AbortAll(s, ts + {t});
    forall o ensures o in l.locks <==> o in r.locks
             ensures o in l.locks && o in r.locks ==> l.locks[o] == r.locks[o]
    {
      if o in s.locks {
        var hs := s.locks[o].holders;
        assert hs - ts - {t} == hs - (ts + {t});
        assert forall u | u in hs && u !in ts + {t} :: u in hs - ts;
        assert forall u | u in hs - ts && u != t :: u !in ts + {t};
      }
    }
    assert l.locks == r.locks;
    assert forall u :: u in l.txs <==> u in r.txs;
    assert forall u :: u in l.txs ==> l.txs[u] == r.txs[u];
    assert l.txs == r.txs;
    assert l.active == r.active && l.aborted == r.aborted;
  }

  method YoungestOf(ts: seq<TxId>) returns (t: TxId)
    requires ts != []
    ensures IsYoungest(t, set u | u in ts)
  {
    t := ts[0];
    for i := 1 to |ts|
      invariant t in ts && forall j | 0 <= j < i :: ts[j] <= t
    {
      t := if ts[i] > t then ts[i] else t;
    }
  }

  /** A transaction has left the active ones for these sets, without a lock, and the others are where they were. */
  ghost predicate Moved(s: State, s': State, t: TxId, committed: set<TxId>, aborted: set<TxId>) {
    && s'.active == s.active - {t} && s'.committed == committed && s'.aborted == aborted && s'.txs.Keys == s.txs.Keys
    && (forall o | o in s'.locks :: t !in s'.locks[o].holders)
  }

  class ConcurrencyControl {
    const scheme: Scheme
    var lockTable: map<Obj, Lock>
    var transactions: map<TxId, Tx>
    var active: set<TxId>
    var committed: set<TxId>
    var aborted: set<TxId>
    ghost var history: History

    ghost function Abs(): State
      reads this
    {
      State(lockTable, transactions, active, committed, aborted, history)
    }

    ghost predicate Valid()
      reads this
    {
      Inv(Abs())
    }

    constructor (scheme: Scheme)
      ensures this.scheme == scheme && Abs() == INITIAL && Valid()
    {
      this.scheme := scheme;
      lockTable, transactions := map[], map[];
      active, committed, aborted := {}, {}, {};
      history := [];
      new;
      assert Waits(INITIAL) == map[];
    }

    /** `create_transaction` */
    method BeginTransaction(t: TxId) returns (r: Response)
      requires Valid()
      modifies this
      ensures Valid() && Next(scheme, old(Abs()), Begin(t), Abs(), r)
    {
      if t in transactions {
        return Raised;
      }
      BeginKeeps(Abs(), t);
      transactions := transactions[t := Tx(Active, None)];
      active := active + {t};
      r := Allowed;
    }

    /** `validate_operation` */
    method ValidateOperation(o: Obj, t: TxId, a: Action) returns (r: Response)
      requires Valid()
      modifies this
      ensures Valid() && Next(scheme, old(Abs()), Request(t, o, a), Abs(), r)
    {
      if t !in transactions {
        return Raised;
      }
      if transactions[t].status != Active {
        return Denied;
      }
      ghost var s := Abs();
      r := ValidateObject(o, t, a);
      ValidateKeeps(scheme, s, t, o, a, Abs(), r);
    }

    /** `execute_operation` */
    method ExecuteOperation(o: Obj, t: TxId, a: Action) returns (r: Response)
      requires Valid()
      modifies this
      ensures Valid() && Next(scheme, old(Abs()), Acquire(t, o, a), Abs(), r)
    {
      if t !in transactions || transactions[t].status != Active {
        return Raised;
      }
      r := LogObject(o, t, a);
    }

    /** An active transaction is committed, and its commit recorded; any other call changes nothing. */
    method CommitTransaction(t: TxId) returns (r: Response)
      requires Valid()
      modifies this
      ensures Valid() && Next(scheme, old(Abs()), Finish(t), Abs(), r)
      ensures var s, s' := old(Abs()), Abs();
              if t !in s.active then r == Raised && s' == s
              else r == Allowed && s'.history == s.history + [Commit(t)] && Moved(s, s', t, s.committed + {t}, s.aborted)
    {
      ghost var s := Abs();
      var ok := EndTransaction(t, true);
      r := if ok then Allowed else Raised;
      StepKeepsInv(scheme, s, Finish(t), Abs(), r);
    }

    /** An active transaction is aborted; any other call changes nothing. */
    method AbortTransaction(t: TxId) returns (r: Response)
      requires Valid()
      modifies this
      ensures Valid() && Next(scheme, old(Abs()), Rollback(t), Abs(), r)
      ensures var s, s' := old(Abs()), Abs();
              if t !in s.active then r == Denied && s' == s
              else r == Allowed && s'.history == s.history && Moved(s, s', t, s.committed, s.aborted + {t})
    {
      ghost var s := Abs();
      var ok := EndTransaction(t, false);
      r := if ok then Allowed else Denied;
      StepKeepsInv(scheme, s, Rollback(t), Abs(), r);
    }

    /** `LockBasedStrategy.log_object` */
    method LogObject(o: Obj, t: TxId, a: Action) returns (r: Response)
      requires Valid() && t in active
      modifies this
      ensures Valid() && Log(scheme, old(Abs()), t, o, a, Abs(), r)
    {
      ghost var s := Abs();
      r := ValidateObject(o, t, a);
      ghost var m := Abs();
      ValidateKeeps(scheme, s, t, o, a, m, r);
      if r != Allowed {
        return Raised;
      }
      GrantKeeps(m, t, o, a);
      match a {
        case Write =>
          lockTable := lockTable[o := Lock(Write, {t})];
        case Read =>
          if o !in lockTable {
            lockTable := lockTable[o := Lock(Read, {t})];
          } else if lockTable[o].kind == Read {
            lockTable := lockTable[o := lockTable[o].(holders := lockTable[o].holders + {t})];
          }
      }
      transactions := transactions[t := transactions[t].(waitingFor := None)];
      history := history + [Granted(t, o, a)];
    }

    /** `LockBasedStrategy.validate_object` */
    method ValidateObject(o: Obj, t: TxId, a: Action) returns (r: Response)
      requires Valid() && t in active
      modifies this
      ensures Validate(scheme, old(Abs()), t, o, a, Abs(), r)
    {
      if o !in lockTable {
        return Allowed;
      }
      var lock := lockTable[o];
      match a {
        case Read =>
          if lock.kind == Read || t in lock.holders {
            return Allowed;
          }
          r := Conflicted(o, t, a, lock.holders);
        case Write =>
          if lock.kind == Write && t in lock.holders {
            return Allowed;
          }
          var holders := lock.holders - {t};
          if holders == {} {
            return Allowed;
          }
          r := Conflicted(o, t, a, holders);
      }
    }

    /** What a request does when others hold the lock. */
    method Conflicted(o: Obj, t: TxId, a: Action, holders: set<TxId>) returns (r: Response)
      requires Valid() && t in active
      requires holders == Blockers(lockTable, t, o, a) && holders != {}
      modifies this
      ensures Validate(scheme, old(Abs()), t, o, a, Abs(), r)
    {
      ghost var s := Abs();
      BlockersActive(s, t, o, a);
      var wait := ShouldWait(t, holders);
      if wait {
        var oldest := Least(holders);
        WaitingKeepsCore(s, t, Some(oldest));
        transactions := transactions[t := transactions[t].(waitingFor := Some(oldest))];
        CheckAndResolve();
        r := Denied;
      } else if scheme == WaitDie {
        r := Raised;
      } else if a == Read {
        // The loop runs over the lock's own holder set: it wounds one of them and then fails.
        var holder := Pick(holders);
        var ok := EndTransaction(holder, false);
        r := Raised;
      } else {
        Wound(holders);
        r := Allowed;
      }
    }

    /** Aborts every transaction in `victims`, a set of its own. */
    method Wound(victims: set<TxId>)
      requires Core(Abs()) && victims <= active
      modifies this
      ensures Abs() == AbortAll(old(Abs()), victims)
    {
      ghost var s := Abs();
      var todo := victims;
      assert AbortAll(s, {}) == s by {
        assert forall o :: o in Release(s.locks, {}) ==> s.locks[o].holders - {} == s.locks[o].holders;
        assert forall o :: o in s.locks ==> s.locks[o].holders != {};
        assert forall o :: o in s.locks <==> o in Release(s.locks, {});
        assert Release(s.locks, {}) == s.locks;
        assert Terminate(s.txs, {}) == s.txs;
      }
      assert victims - todo == {};
      while todo != {}
        invariant todo <= victims && Abs() == AbortAll(s, victims - todo)
      {
        var holder := Pick(todo);
        AbortKeepsCore(s, victims - todo);
        var ok := EndTransaction(holder, false);
        AbortsCompose(s, victims - todo, holder);
        assert victims - todo + {holder} == victims - (todo - {holder});
        todo := todo - {holder};
      }
      assert victims - todo == victims;
    }

    /** `_should_wait` */
    method ShouldWait(t: TxId, holders: set<TxId>) returns (wait: bool)
      requires holders != {}
      ensures wait <==> MustWait(scheme, t, holders)
    {
      match scheme {
        case WoundWait =>
          var oldest := Least(holders);
          wait := t >= oldest;
        case WaitDie =>
          var youngest := Youngest(holders);
          wait := t < youngest;
        case Timeout =>
          wait := true;
      }
    }

    static method Youngest(ts: set<TxId>) returns (t: TxId)
      requires ts != {}
      ensures IsYoungest(t, ts)
    {
      t := Pick(ts);
      var rest := ts - {t};
      while rest != {}
        invariant rest <= ts && t in ts && forall u | u in ts :: u in rest || u <= t
      {
        var u := Pick(rest);
        t := if u > t then u else t;
        rest := rest - {u};
      }
    }

    /** `DeadlockDetector.check_and_resolve` over the graph `detect_deadlock` collects. */
    method CheckAndResolve()
      requires Core(Abs())
      modifies this
      ensures Resolved(old(Abs()), Abs())
    {
      var graph: Graph := map[];
      var todo := active;
      while todo != {}
        invariant Abs() == old(Abs()) && todo <= active
        invariant forall u | u in active :: u in transactions
        invariant forall u :: u in graph <==> u in active && u !in todo && transactions[u].waitingFor.Some?
        invariant forall u | u in graph :: graph[u] == {transactions[u].waitingFor.value}
      {
        var u := Pick(todo);
        if transactions[u].waitingFor.Some? {
          graph := graph[u := {transactions[u].waitingFor.value}];
        }
        todo := todo - {u};
      }
      assert forall u :: u in graph <==> u in Waits(Abs());
      assert forall u :: u in graph ==> graph[u] == Waits(Abs())[u];
      assert graph == Waits(Abs());
      var cycle := DetectDeadlock(graph);
      if cycle.Some? {
        var youngest := YoungestOf(cycle.value);
        CycleNodesActive(graph, cycle.value, youngest);
        var ok := EndTransaction(youngest, false);
      }
    }

    /** `EndTransactionManager.end_transaction`: let go of the locks, then change the status. */
    method EndTransaction(t: TxId, isCommit: bool) returns (success: bool)
      requires Core(Abs())
      modifies this
      ensures success <==> t in old(active)
      ensures Abs() == if !success then old(Abs()) else if isCommit then CommitTx(old(Abs()), t) else AbortAll(old(Abs()), {t})
    {
      if t !in transactions || transactions[t].status != Active {
        return false;
      }
      ghost var s := Abs();
      ReleaseLocks(t);
      transactions := transactions[t := transactions[t].(waitingFor := None)];
      if isCommit {
        transactions := transactions[t := transactions[t].(status := PartiallyCommitted)];
        transactions := transactions[t := transactions[t].(status := Committed)];
        active, committed := active - {t}, committed + {t};
        history := history + [Commit(t)];
      } else {
        transactions := transactions[t := transactions[t].(status := Aborted)];
        active, aborted := active - {t}, aborted + {t};
      }
      transactions := transactions[t := transactions[t].(status := Terminated)];
      assert forall u :: u in transactions ==> transactions[u] == Terminate(s.txs, {t})[u];
      assert transactions == Terminate(s.txs, {t});
      success := true;
    }

    /** `LockBasedStrategy.end_transaction` */
    method ReleaseLocks(t: TxId)
      requires LocksHeld(Abs())
      modifies this`lockTable
      ensures lockTable == Release(old(lockTable), {t})
    {
      ghost var before := lockTable;
      var released := set o | o in lockTable && t in lockTable[o].holders;
      while released != {}
        invariant forall o | o in released :: o in before && t in before[o].holders
        invariant forall o :: o in lockTable <==> o in before && (o in released || !(before[o].holders <= {t}))
        invariant forall o | o in lockTable && o in released :: lockTable[o] == before[o]
        invariant forall o | o in lockTable && o !in released ::
                    lockTable[o].kind == before[o].kind && lockTable[o].holders == before[o].holders - {t}
      {
        var o := Pick(released);
        var lock := lockTable[o].(holders := lockTable[o].holders - {t});
        if lock.holders == {} {
          lockTable := lockTable - {o};
        } else {
          lockTable := lockTable[o := lock];
        }
        released := released - {o};
      }
      assert forall o :: o in lockTable ==> lockTable[o] == Release(before, {t})[o];
      assert lockTable == Release(before, {t});
    }
  }
}
