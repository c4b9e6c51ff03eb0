/** What a run of the lock-based engine comes to, told from what was granted: which requests are answered how,
    who commits and who is aborted, and that the serial execution leaves nothing out. */
module LockOutcomes {
  import opened Wrappers
  import opened WaitsFor
  import opened Serializability
  import opened LockTable
  import opened LockSafety

  // ---- the lock table is what active transactions were granted ----

  ghost predicate GrantedOn(s: State, t: TxId, o: Obj) {
    exists i | 0 <= i < |s.history| :: s.history[i].Granted? && s.history[i].tx == t && s.history[i].obj == o
  }

  ghost predicate GrantedWrite(s: State, t: TxId, o: Obj) {
    exists i | 0 <= i < |s.history| :: s.history[i] == Granted(t, o, Write)
  }

  /** Nobody holds a lock without having been granted something it protects. */
  ghost predicate LocksTell(s: State) {
    forall o, t | o in s.locks && t in s.locks[o].holders ::
      GrantedOn(s, t, o) && (s.locks[o].kind == Write ==> GrantedWrite(s, t, o))
  }

  /** Another transaction, still active, was granted something that conflicts with the request. */
  ghost predicate InTheWay(s: State, u: TxId, t: TxId, o: Obj, a: Action) {
    u in s.active && u != t && (if a == Write then GrantedOn(s, u, o) else GrantedWrite(s, u, o))
  }

  lemma BlockersAre(s: State, t: TxId, o: Obj, a: Action, u: TxId)
    requires Inv(s) && LocksTell(s)
    ensures u in Blockers(s.locks, t, o, a) <==> InTheWay(s, u, t, o, a)
  {
    hide Acyclic, Waits, Separated, Recorded;
    if InTheWay(s, u, t, o, a) {
      if a == Write {
        var i :| 0 <= i < |s.history| && s.history[i].Granted? && s.history[i].tx == u && s.history[i].obj == o;
        assert o in s.locks && u in s.locks[o].holders;
      } else {
        var i :| 0 <= i < |s.history| && s.history[i] == Granted(u, o, Write);
        assert o in s.locks && u in s.locks[o].holders && s.locks[o].kind == Write;
      }
    }
  }

  // ---- how a request is answered ----

  /** Somebody is in the way, and the scheme makes the requester wait for it. */
  ghost predicate Waiting(scheme: Scheme, s: State, t: TxId, o: Obj, a: Action) {
    match scheme
    case WoundWait => exists u :: InTheWay(s, u, t, o, a) && u < t
    case WaitDie => exists u :: InTheWay(s, u, t, o, a) && t < u
    case Timeout => exists u :: InTheWay(s, u, t, o, a)
  }

  ghost predicate Free(s: State, t: TxId, o: Obj, a: Action) {
    forall u :: !InTheWay(s, u, t, o, a)
  }

  ghost predicate OldestInTheWay(s: State, h: TxId, t: TxId, o: Obj, a: Action) {
    InTheWay(s, h, t, o, a) && forall u | InTheWay(s, u, t, o, a) :: h <= u
  }

  /** With the new wait there is a deadlock, of which `v` is the youngest. */
  ghost predicate Victim(s: State, t: TxId, o: Obj, a: Action, v: TxId) {
    exists h, c: seq<TxId> ::
      OldestInTheWay(s, h, t, o, a) && IsCycle(Waits(s)[t := {h}], c) && v in c && forall x | x in c :: x <= v
  }

  /** The request takes `v` with it. */
  ghost predicate TakenBy(scheme: Scheme, s: State, t: TxId, o: Obj, a: Action, v: TxId) {
    if Waiting(scheme, s, t, o, a) then Victim(s, t, o, a, v) else scheme == WoundWait && InTheWay(s, v, t, o, a)
  }

  ghost predicate Answered(scheme: Scheme, s: State, t: TxId, o: Obj, a: Action, r: Response) {
    && (r == Denied <==> Waiting(scheme, s, t, o, a))
    && (r == Allowed <==> Free(s, t, o, a) || (scheme == WoundWait && a == Write && !Waiting(scheme, s, t, o, a)))
  }

  lemma WaitingIs(scheme: Scheme, s: State, t: TxId, o: Obj, a: Action)
    requires Inv(s) && LocksTell(s)
    ensures Free(s, t, o, a) <==> Blockers(s.locks, t, o, a) == {}
    ensures Waiting(scheme, s, t, o, a) <==> Blockers(s.locks, t, o, a) != {} && MustWait(scheme, t, Blockers(s.locks, t, o, a))
  {
    hide Inv, LocksTell, Blockers, InTheWay;
    var b := Blockers(s.locks, t, o, a);
    NotOwn(s, t, o, a);
    forall u ensures u in b <==> InTheWay(s, u, t, o, a) {
      BlockersAre(s, t, o, a, u);
    }
    if Free(s, t, o, a) {
      assert forall u :: u !in b;
      assert b == {};
    } else {
      var u :| InTheWay(s, u, t, o, a);
      assert u in b;
    }
  }

  lemma NotOwn(s: State, t: TxId, o: Obj, a: Action)
    ensures t !in Blockers(s.locks, t, o, a)
  {
  }

  /** A read is blocked by one writer at most. */
  lemma OneWriter(s: State, t: TxId, o: Obj, u: TxId, v: TxId)
    requires Inv(s) && u in Blockers(s.locks, t, o, Read) && v in Blockers(s.locks, t, o, Read)
    ensures u == v
  {
  }

  lemma RecordedWait(s: State, t: TxId, h: TxId)
    requires Inv(s) && t in s.active
    ensures Waits(SetWaiting(s, t, Some(h))) == Waits(s)[t := {h}]
    ensures var s1 := SetWaiting(s, t, Some(h));
            s1.active == s.active && s1.aborted == s.aborted && s1.committed == s.committed && s1.history == s.history && s1.locks == s.locks
  {
    hide Acyclic, LocksHeld, TwoPhase, Separated, Recorded;
    var g, g' := Waits(SetWaiting(s, t, Some(h))), Waits(s)[t := {h}];
    forall u ensures u in g <==> u in g' {
    }
    forall u ensures u in g && u in g' ==> g[u] == g'[u] {
    }
    assert g == g';
  }

  lemma OldestIs(s: State, h: TxId, t: TxId, o: Obj, a: Action)
    requires Inv(s) && LocksTell(s)
    ensures IsLeast(h, Blockers(s.locks, t, o, a)) <==> OldestInTheWay(s, h, t, o, a)
  {
    hide Inv, LocksTell, Blockers, InTheWay;
    forall u ensures u in Blockers(s.locks, t, o, a) <==> InTheWay(s, u, t, o, a) {
      BlockersAre(s, t, o, a, u);
    }
  }

  lemma OldestOnce(s: State, t: TxId, o: Obj, a: Action, h: TxId, k: TxId)
    requires OldestInTheWay(s, h, t, o, a) && OldestInTheWay(s, k, t, o, a)
    ensures h == k
  {
    hide InTheWay;
  }

  /** A refused request aborts the youngest of the deadlock it closes, if it closes one, and nobody else. */
  lemma RefusalTakes(scheme: Scheme, s: State, t: TxId, o: Obj, a: Action, s': State, v: TxId)
    requires Inv(s) && LocksTell(s) && t in s.active && Waiting(scheme, s, t, o, a)
    requires Validate(scheme, s, t, o, a, s', Denied)
    ensures s'.committed == s.committed && s'.history == s.history && s'.txs.Keys == s.txs.Keys
    ensures v in s'.aborted <==> v in s.aborted || Victim(s, t, o, a, v)
  {
    hide Inv, LocksTell, Blockers, InTheWay, Acyclic, Waits, IsCycle, OldestInTheWay, SetWaiting;
    WaitingIs(scheme, s, t, o, a);
    var b := Blockers(s.locks, t, o, a);
    var h :| IsLeast(h, b) && Resolved(SetWaiting(s, t, Some(h)), s');
    OldestIs(s, h, t, o, a);
    RecordedWait(s, t, h);
    KeysStay(s, t, h);
    var g, s1 := Waits(s)[t := {h}], SetWaiting(s, t, Some(h));
    if Acyclic(g) {
      if Victim(s, t, o, a, v) {
        var k, c: seq<TxId> :| OldestInTheWay(s, k, t, o, a) && IsCycle(Waits(s)[t := {k}], c) && v in c && forall x | x in c :: x <= v;
        OldestOnce(s, t, o, a, h, k);
        AcyclicHasNone(g, c);
      }
    } else {
      var c: seq<TxId>, y :| IsCycle(g, c) && IsYoungest(y, set x | x in c) && s' == AbortAll(s1, {y});
      YoungestIn(c, y);
      assert OldestInTheWay(s, h, t, o, a) && IsCycle(g, c) && y in c && forall x | x in c :: x <= y;
      assert Victim(s, t, o, a, y);
      if Victim(s, t, o, a, v) {
        var k, d: seq<TxId> :| OldestInTheWay(s, k, t, o, a) && IsCycle(Waits(s)[t := {k}], d) && v in d && forall x | x in d :: x <= v;
        OldestOnce(s, t, o, a, h, k);
        SameCycle(s, t, h, c, d);
      }
    }
  }

  lemma KeysStay(s: State, t: TxId, h: TxId)
    requires t in s.active && Inv(s)
    ensures SetWaiting(s, t, Some(h)).txs.Keys == s.txs.Keys
  {
  }

  lemma AcyclicHasNone(g: Graph, c: seq<TxId>)
    requires Acyclic(g)
    ensures !IsCycle(g, c)
  {
  }

  lemma YoungestIn(c: seq<TxId>, y: TxId)
    requires IsYoungest(y, set x | x in c)
    ensures y in c && forall x | x in c :: x <= y
  {
    var ts := set x | x in c;
    forall x | x in c ensures x <= y {
      assert x in ts;
    }
  }

  /** All the cycles a new wait closes have the same members. */
  lemma SameCycle(s: State, t: TxId, h: TxId, c: seq<TxId>, d: seq<TxId>)
    requires Inv(s) && t in s.active && IsCycle(Waits(s)[t := {h}], c) && IsCycle(Waits(s)[t := {h}], d)
    ensures forall x :: x in c <==> x in d
  {
    RecordedWait(s, t, h);
    NewCycleMeets(s, t, h, c);
    NewCycleMeets(s, t, h, d);
    var g := Waits(SetWaiting(s, t, Some(h)));
    MeetingCycles(g, c, d, t);
    MeetingCycles(g, d, c, t);
  }

  /** What becomes of a request by an active transaction. */
  lemma RequestOutcome(scheme: Scheme, s: State, t: TxId, o: Obj, a: Action, s': State, r: Response)
    requires Inv(s) && LocksTell(s) && t in s.active && Validate(scheme, s, t, o, a, s', r)
    ensures Answered(scheme, s, t, o, a, r)
    ensures s'.committed == s.committed && s'.history == s.history && s'.txs.Keys == s.txs.Keys
    ensures forall v :: v in s'.aborted <==> v in s.aborted || TakenBy(scheme, s, t, o, a, v)
  {
    hide Inv, LocksTell, Blockers, InTheWay, Acyclic, Waits, Victim, SetWaiting, Resolved, Waiting, Free;
    var b := Blockers(s.locks, t, o, a);
    WaitingIs(scheme, s, t, o, a);
    forall v ensures v in s'.aborted <==> v in s.aborted || TakenBy(scheme, s, t, o, a, v) {
      BlockersAre(s, t, o, a, v);
      if Waiting(scheme, s, t, o, a) {
        RefusalTakes(scheme, s, t, o, a, s', v);
      } else if b != {} && scheme == WoundWait && a == Read {
        var h :| h in b && s' == AbortAll(s, {h});
        if v in b {
          OneWriter(s, t, o, h, v);
        }
      }
    }
    if Waiting(scheme, s, t, o, a) {
      RefusalTakes(scheme, s, t, o, a, s', t);
    }
  }

  /** A refused request that survives waits for the oldest in its way; others wait as before. */
  lemma RefusalRecords(scheme: Scheme, s: State, t: TxId, o: Obj, a: Action, s': State, u: TxId)
    requires Inv(s) && LocksTell(s) && t in s.active && Validate(scheme, s, t, o, a, s', Denied)
    requires u in s'.active && u in s'.txs && u in s.txs
    ensures if u != t then s'.txs[u] == s.txs[u]
            else s'.txs[t].waitingFor.Some? && OldestInTheWay(s, s'.txs[t].waitingFor.value, t, o, a)
  {
    hide Acyclic, LocksHeld, TwoPhase, Separated, Recorded, LocksTell, Blockers, InTheWay, OldestInTheWay;
    var h :| IsLeast(h, Blockers(s.locks, t, o, a)) && Resolved(SetWaiting(s, t, Some(h)), s');
    OldestIs(s, h, t, o, a);
  }

  // ---- the lock table keeps telling ----

  lemma GrantedStays(s: State, s': State, t: TxId, o: Obj)
    requires s.history <= s'.history
    ensures (GrantedOn(s, t, o) ==> GrantedOn(s', t, o)) && (GrantedWrite(s, t, o) ==> GrantedWrite(s', t, o))
  {
    assert forall i | 0 <= i < |s.history| :: s'.history[i] == s.history[i];
    if GrantedOn(s, t, o) {
      var i :| 0 <= i < |s.history| && s.history[i].Granted? && s.history[i].tx == t && s.history[i].obj == o;
      assert s'.history[i].Granted?;
    }
    if GrantedWrite(s, t, o) {
      var i :| 0 <= i < |s.history| && s.history[i] == Granted(t, o, Write);
      assert s'.history[i] == Granted(t, o, Write);
    }
  }

  /** Locks that are let go, or left alone, tell as before. */
  lemma FewerLocksTell(s: State, s': State)
    requires LocksTell(s) && s.history <= s'.history
    requires forall o | o in s'.locks :: o in s.locks && s'.locks[o].kind == s.locks[o].kind && s'.locks[o].holders <= s.locks[o].holders
    ensures LocksTell(s')
  {
    hide GrantedOn, GrantedWrite;
    forall o, t | o in s'.locks && t in s'.locks[o].holders
      ensures GrantedOn(s', t, o) && (s'.locks[o].kind == Write ==> GrantedWrite(s', t, o))
    {
      assert t in s.locks[o].holders;
      GrantedStays(s, s', t, o);
    }
  }

  lemma GrantTells(s: State, t: TxId, o: Obj, a: Action)
    requires LocksTell(s)
    ensures LocksTell(Grant(s, t, o, a))
  {
    var s' := Grant(s, t, o, a);
    assert s'.history[|s.history|] == Granted(t, o, a);
    assert GrantedOn(s', t, o) && (a == Write ==> GrantedWrite(s', t, o));
    GrantingTells(s, t, o, a);
  }

  lemma GrantingTells(s: State, t: TxId, o: Obj, a: Action)
    requires LocksTell(s)
    requires var s' := Grant(s, t, o, a); GrantedOn(s', t, o) && (a == Write ==> GrantedWrite(s', t, o))
    ensures LocksTell(Grant(s, t, o, a))
  {
    hide GrantedOn, GrantedWrite;
    var s' := Grant(s, t, o, a);
    forall p, u | p in s'.locks && u in s'.locks[p].holders
      ensures GrantedOn(s', u, p) && (s'.locks[p].kind == Write ==> GrantedWrite(s', u, p))
    {
      GrantedStays(s, s', u, p);
      if p == o && u == t && a == Read && o in s.locks && s.locks[o].kind == Write {
        assert t in s.locks[o].holders;
      }
    }
  }

  lemma ReleaseFewer(locks: map<Obj, Lock>, ts: set<TxId>)
    ensures forall o | o in Release(locks, ts) ::
              o in locks && Release(locks, ts)[o].kind == locks[o].kind && Release(locks, ts)[o].holders <= locks[o].holders
  {
  }

  lemma ValidateTells(scheme: Scheme, s: State, t: TxId, o: Obj, a: Action, s': State, r: Response)
    requires Inv(s) && LocksTell(s) && t in s.active && Validate(scheme, s, t, o, a, s', r)
    ensures LocksTell(s')
  {
    hide Inv, LocksTell, Blockers, Acyclic, Waits, Release;
    var b := Blockers(s.locks, t, o, a);
    if b == {} {
    } else if MustWait(scheme, t, b) {
      var h :| IsLeast(h, b) && Resolved(SetWaiting(s, t, Some(h)), s');
      RecordedWait(s, t, h);
      var s1 := SetWaiting(s, t, Some(h));
      FewerLocksTell(s, s1);
      if !Acyclic(Waits(s1)) {
        var c: seq<TxId>, v :| IsCycle(Waits(s1), c) && IsYoungest(v, set x | x in c) && s' == AbortAll(s1, {v});
        ReleaseFewer(s1.locks, {v});
        FewerLocksTell(s1, s');
      }
    } else if scheme == WaitDie {
    } else if a == Write {
      ReleaseFewer(s.locks, b);
      FewerLocksTell(s, s');
    } else {
      var h :| h in b && s' == AbortAll(s, {h});
      ReleaseFewer(s.locks, {h});
      FewerLocksTell(s, s');
    }
  }

  // ---- what each step comes to ----

  /** The step takes `v` to its end without a commit: a rollback, a wound, or the choice of a victim. */
  ghost predicate Takes(scheme: Scheme, s: State, step: Step, v: TxId) {
    match step
    case Begin(_) => false
    case Request(t, o, a) => t in s.active && TakenBy(scheme, s, t, o, a, v)
    case Acquire(t, o, a) => t in s.active && TakenBy(scheme, s, t, o, a, v)
    case Finish(_) => false
    case Rollback(t) => t in s.active && v == t
  }

  ghost predicate Replied(scheme: Scheme, s: State, step: Step, r: Response) {
    match step
    case Begin(t) => r == if t in s.txs then Raised else Allowed
    case Request(t, o, a) =>
      if t in s.active then Answered(scheme, s, t, o, a, r) else r == if t in s.txs then Denied else Raised
    case Acquire(t, o, a) =>
      r == if t in s.active && Answered(scheme, s, t, o, a, Allowed) then Allowed else Raised
    case Finish(t) => r == if t in s.active then Allowed else Raised
    case Rollback(t) => r == if t in s.active then Allowed else Denied
  }

  /** What is added to the history. */
  function Adds(s: State, step: Step, r: Response): History {
    match step
    case Begin(_) => []
    case Request(_, _, _) => []
    case Acquire(t, o, a) => if r == Allowed then [Granted(t, o, a)] else []
    case Finish(t) => if r == Allowed then [Commit(t)] else []
    case Rollback(_) => []
  }

  ghost predicate Effect(scheme: Scheme, s: State, step: Step, s': State, r: Response) {
    && (forall t :: t in s'.txs <==> t in s.txs || step == Begin(t))
    && (forall t :: t in s'.committed <==> t in s.committed || (step == Finish(t) && t in s.active))
    && (forall t :: t in s'.aborted <==> t in s.aborted || Takes(scheme, s, step, t))
    && s'.history == s.history + Adds(s, step, r)
    && Replied(scheme, s, step, r)
  }

  lemma RequestStep(scheme: Scheme, s: State, t: TxId, o: Obj, a: Action, s': State, r: Response)
    requires Inv(s) && LocksTell(s) && Next(scheme, s, Request(t, o, a), s', r)
    ensures LocksTell(s') && Effect(scheme, s, Request(t, o, a), s', r)
  {
    hide Acyclic, Waits, LocksHeld, TwoPhase, Separated, Recorded, LocksTell, TakenBy, Answered, Validate;
    assert s.history + [] == s.history;
    if t in s.active {
      RequestOutcome(scheme, s, t, o, a, s', r);
      ValidateTells(scheme, s, t, o, a, s', r);
    }
  }

  lemma AcquireStep(scheme: Scheme, s: State, t: TxId, o: Obj, a: Action, s': State, r: Response)
    requires Inv(s) && LocksTell(s) && Next(scheme, s, Acquire(t, o, a), s', r)
    ensures LocksTell(s') && Effect(scheme, s, Acquire(t, o, a), s', r)
  {
    hide Acyclic, Waits, LocksHeld, TwoPhase, Separated, Recorded, LocksTell, TakenBy, Answered, Validate, Granting, SetWaiting;
    assert s.history + [] == s.history;
    if t in s.active {
      var m, q :| Validate(scheme, s, t, o, a, m, q) &&
        if q == Allowed then r == Allowed && s' == Grant(SetWaiting(m, t, None), t, o, a) else r == Raised && s' == m;
      RequestOutcome(scheme, s, t, o, a, m, q);
      AnsweredOnce(scheme, s, t, o, a, q);
      ValidateTells(scheme, s, t, o, a, m, q);
      if q == Allowed {
        NoWaitTells(m, t);
        GrantTells(SetWaiting(m, t, None), t, o, a);
      }
    }
  }

  lemma NoWaitTells(s: State, t: TxId)
    requires LocksTell(s)
    ensures var s' := SetWaiting(s, t, None);
            && LocksTell(s') && s'.committed == s.committed && s'.aborted == s.aborted && s'.history == s.history
            && s'.txs.Keys == s.txs.Keys && s'.active == s.active
  {
    hide LocksTell;
    FewerLocksTell(s, SetWaiting(s, t, None));
  }

  lemma EndStep(scheme: Scheme, s: State, step: Step, s': State, r: Response)
    requires Inv(s) && LocksTell(s) && Next(scheme, s, step, s', r) && !step.Request? && !step.Acquire?
    ensures LocksTell(s') && Effect(scheme, s, step, s', r)
  {
    hide LocksTell, Acyclic, Waits, LocksHeld, TwoPhase, Separated, Recorded, Release;
    assert s.history + [] == s.history;
    if (step.Finish? || step.Rollback?) && step.t in s.active {
      ReleaseFewer(s.locks, {step.t});
    }
    FewerLocksTell(s, s');
  }

  lemma StepOutcome(scheme: Scheme, s: State, step: Step, s': State, r: Response)
    requires Inv(s) && LocksTell(s) && Next(scheme, s, step, s', r)
    ensures LocksTell(s') && Effect(scheme, s, step, s', r)
  {
    hide Inv, LocksTell, Next, Effect;
    match step
    case Request(t, o, a) => RequestStep(scheme, s, t, o, a, s', r);
    case Acquire(t, o, a) => AcquireStep(scheme, s, t, o, a, s', r);
    case _ => EndStep(scheme, s, step, s', r);
  }

  lemma AnsweredOnce(scheme: Scheme, s: State, t: TxId, o: Obj, a: Action, r: Response)
    requires Answered(scheme, s, t, o, a, r)
    ensures r == Allowed <==> Answered(scheme, s, t, o, a, Allowed)
  {
  }

  // ---- over runs ----

  ghost predicate Moved(scheme: Scheme, s: State, step: Step, s': State) {
    exists r :: Effect(scheme, s, step, s', r)
  }

  /** Each step of a run has its effect. */
  lemma {:induction false} RunTells(scheme: Scheme, steps: seq<Step>, states: seq<State>)
    requires IsRun(scheme, steps, states)
    ensures Inv(states[|steps|]) && LocksTell(states[|steps|])
    ensures forall i | 0 <= i < |steps| :: Moved(scheme, states[i], steps[i], states[i + 1])
  {
    hide Inv, Next, Effect, LocksTell;
    RunKeepsInv(scheme, steps, states);
    if steps == [] {
      NothingLocked();
    } else {
      var n := |steps| - 1;
      RunPrefix(scheme, steps, states);
      RunTells(scheme, steps[..n], states[..n + 1]);
      var r :| Next(scheme, states[n], steps[n], states[n + 1], r);
      StepOutcome(scheme, states[n], steps[n], states[n + 1], r);
      forall i | 0 <= i < |steps| ensures Moved(scheme, states[i], steps[i], states[i + 1]) {
        if i < n {
          assert steps[..n][i] == steps[i] && states[..n + 1][i] == states[i] && states[..n + 1][i + 1] == states[i + 1];
          assert Moved(scheme, states[..n + 1][i], steps[..n][i], states[..n + 1][i + 1]);
        }
      }
    }
  }

  lemma NothingLocked()
    ensures LocksTell(INITIAL)
  {
  }

  /** A run up to some point is one. */
  lemma RunUpTo(scheme: Scheme, steps: seq<Step>, states: seq<State>, n: nat)
    requires IsRun(scheme, steps, states) && n <= |steps|
    ensures IsRun(scheme, steps[..n], states[..n + 1])
  {
    hide Moves;
    var ss, ts := steps[..n], states[..n + 1];
    forall i | 0 <= i < n ensures Moves(scheme, ts[i], ss[i], ts[i + 1]) {
      assert Moves(scheme, states[i], steps[i], states[i + 1]);
    }
  }

  ghost predicate CommittedBy(steps: seq<Step>, states: seq<State>, t: TxId)
    requires |states| > |steps|
  {
    exists i | 0 <= i < |steps| :: steps[i] == Finish(t) && t in states[i].active
  }

  ghost predicate TakenIn(scheme: Scheme, steps: seq<Step>, states: seq<State>, t: TxId)
    requires |states| > |steps|
  {
    exists i | 0 <= i < |steps| :: Takes(scheme, states[i], steps[i], t)
  }

  ghost predicate BegunIn(steps: seq<Step>, t: TxId) {
    exists i | 0 <= i < |steps| :: steps[i] == Begin(t)
  }

  /** At every point of a run: known are the transactions that began; committed exactly those that finished while
      they were active; aborted exactly those rolled back, wounded or chosen as a victim; active the others. */
  lemma {:induction false} WhoIsWhere(scheme: Scheme, steps: seq<Step>, states: seq<State>, t: TxId)
    requires IsRun(scheme, steps, states)
    ensures var s := states[|steps|];
            && (t in s.txs <==> BegunIn(steps, t))
            && (t in s.committed <==> CommittedBy(steps, states, t))
            && (t in s.aborted <==> TakenIn(scheme, steps, states, t))
            && (t in s.active <==> BegunIn(steps, t) && !CommittedBy(steps, states, t) && !TakenIn(scheme, steps, states, t))
  {
    hide Next, Moves, LocksTell, LocksHeld, TwoPhase, Separated, Recorded, Acyclic, Waits, Takes;
    RunTells(scheme, steps, states);
    if steps != [] {
      var n := |steps| - 1;
      RunPrefix(scheme, steps, states);
      WhoIsWhere(scheme, steps[..n], states[..n + 1], t);
      LastStep(scheme, steps, states, t);
      assert Moved(scheme, states[n], steps[n], states[n + 1]);
    }
  }

  lemma LastStep(scheme: Scheme, steps: seq<Step>, states: seq<State>, t: TxId)
    requires steps != [] && |states| == |steps| + 1
    ensures var n := |steps| - 1;
            var before, were := steps[..n], states[..n + 1];
            && (BegunIn(steps, t) <==> BegunIn(before, t) || steps[n] == Begin(t))
            && (CommittedBy(steps, states, t) <==> CommittedBy(before, were, t) || (steps[n] == Finish(t) && t in states[n].active))
            && (TakenIn(scheme, steps, states, t) <==> TakenIn(scheme, before, were, t) || Takes(scheme, states[n], steps[n], t))
  {
    hide Takes, TakenIn;
    var n := |steps| - 1;
    var before, were := steps[..n], states[..n + 1];
    assert forall i | 0 <= i < n :: before[i] == steps[i] && were[i] == states[i];
    LastTaken(scheme, steps, states, t);
    if BegunIn(before, t) {
      var i :| 0 <= i < n && before[i] == Begin(t);
      assert steps[i] == Begin(t);
    }
    if CommittedBy(before, were, t) {
      var i :| 0 <= i < n && before[i] == Finish(t) && t in were[i].active;
      assert steps[i] == Finish(t) && t in states[i].active;
    }
  }

  lemma LastTaken(scheme: Scheme, steps: seq<Step>, states: seq<State>, t: TxId)
    requires steps != [] && |states| == |steps| + 1
    ensures var n := |steps| - 1;
            TakenIn(scheme, steps, states, t) <==> TakenIn(scheme, steps[..n], states[..n + 1], t) || Takes(scheme, states[n], steps[n], t)
  {
    hide Takes;
    var n := |steps| - 1;
    var before, were := steps[..n], states[..n + 1];
    assert forall i | 0 <= i < n :: before[i] == steps[i] && were[i] == states[i];
    if TakenIn(scheme, before, were, t) {
      var i :| 0 <= i < n && Takes(scheme, were[i], before[i], t);
      assert Takes(scheme, states[i], steps[i], t);
    }
    if TakenIn(scheme, steps, states, t) {
      var i :| 0 <= i < |steps| && Takes(scheme, states[i], steps[i], t);
      assert i < n ==> Takes(scheme, were[i], before[i], t);
    }
  }

  /** A commit is for good: from then on the transaction is committed and never aborted, and its commit is the
      last thing in the history right after it. */
  lemma {:induction false} CommitIsForGood(scheme: Scheme, steps: seq<Step>, states: seq<State>, i: nat, j: nat, t: TxId)
    requires IsRun(scheme, steps, states) && i < j <= |steps| && steps[i] == Finish(t) && t in states[i].active
    ensures t in states[j].committed && t !in states[j].aborted && t !in states[j].active
    ensures states[i + 1].history == states[i].history + [Commit(t)]
  {
    hide Next, Moves, LocksTell, LocksHeld, TwoPhase, Separated, Recorded, Acyclic, Waits, Takes;
    RunTells(scheme, steps, states);
    assert Moved(scheme, states[i], steps[i], states[i + 1]);
    RunUpTo(scheme, steps, states, j);
    assert steps[..j][i] == Finish(t) && states[..j + 1][i] == states[i];
    assert CommittedBy(steps[..j], states[..j + 1], t);
    WhoIsWhere(scheme, steps[..j], states[..j + 1], t);
    RunKeepsInv(scheme, steps[..j], states[..j + 1]);
  }

  /** Every acquisition is answered and recorded: it is allowed exactly if the transaction is active and nobody
      whom the scheme does not wound was granted something that conflicts; and then it is in the history. */
  lemma AcquisitionIsRecorded(scheme: Scheme, steps: seq<Step>, states: seq<State>, i: nat)
    requires IsRun(scheme, steps, states) && i < |steps| && steps[i].Acquire?
    ensures var s, step := states[i], steps[i];
            states[i + 1].history ==
              if step.t in s.active && Answered(scheme, s, step.t, step.o, step.a, Allowed)
              then s.history + [Granted(step.t, step.o, step.a)] else s.history
  {
    hide Next, Moves, LocksTell, LocksHeld, TwoPhase, Separated, Recorded, Acyclic, Waits, Takes, Answered;
    RunTells(scheme, steps, states);
    assert Moved(scheme, states[i], steps[i], states[i + 1]);
    assert states[i].history + [] == states[i].history;
  }

  // ---- nothing is left out of the serial execution ----

  lemma {:induction false} ProjectCounts(h: History, ts: set<TxId>, e: Event)
    ensures multiset(Project(h, ts))[e] == if e.Granted? && e.tx in ts then multiset(h)[e] else 0
  {
    if h != [] {
      var g, x := h[..|h| - 1], h[|h| - 1];
      ProjectCounts(g, ts, e);
      assert h == g + [x];
      ProjectStep(h, ts);
    }
  }

  /** Who has committed does nothing more: what a transaction was granted before its commit is all it was. */
  lemma AllBeforeCommit(h: History, e: Event)
    requires Strict(h) && h != [] && h[|h| - 1].Commit? && e.Granted? && e.tx == h[|h| - 1].tx
    ensures multiset(h)[e] == multiset(h[..|h| - 1])[e]
  {
    assert h == h[..|h| - 1] + [h[|h| - 1]];
  }

  /** The serial execution has each operation of a committed transaction as often as it was granted, and
      nothing else. */
  lemma {:induction false} SerialCounts(h: History, e: Event)
    requires Strict(h)
    ensures multiset(Serial(h))[e] == if e.Granted? && e.tx in CommittedIn(h) then multiset(h)[e] else 0
  {
    if h != [] {
      var g, x := h[..|h| - 1], h[|h| - 1];
      StrictPrefix(h);
      SerialCounts(g, e);
      LastIsLive(h);
      assert h == g + [x];
      if x.Commit? {
        ProjectCounts(g, {x.tx}, e);
      }
    }
  }

  /** One transaction after the other, in the order of their commits. */
  lemma {:induction false} SerialInOrder(h: History, i: nat, j: nat)
    requires Strict(h) && i < j < |Serial(h)|
    ensures Serial(h)[i].tx == Serial(h)[j].tx || CommitsBefore(h, Serial(h)[i].tx, Serial(h)[j].tx)
  {
    var g, x := h[..|h| - 1], h[|h| - 1];
    StrictPrefix(h);
    if j < |Serial(g)| {
      SerialInOrder(g, i, j);
      assert Serial(h)[i] == Serial(g)[i] && Serial(h)[j] == Serial(g)[j];
      if CommitsBefore(g, Serial(g)[i].tx, Serial(g)[j].tx) {
        BeforeStill(h, Serial(g)[i].tx, Serial(g)[j].tx);
      }
    } else {
      LastCommits(h, i, j);
    }
  }

  ghost predicate CommitsBefore(h: History, t: TxId, u: TxId) {
    exists a, b | 0 <= a < b < |h| :: h[a] == Commit(t) && h[b] == Commit(u)
  }

  lemma BeforeStill(h: History, t: TxId, u: TxId)
    requires h != [] && CommitsBefore(h[..|h| - 1], t, u)
    ensures CommitsBefore(h, t, u)
  {
    var g := h[..|h| - 1];
    var a, b :| 0 <= a < b < |g| && g[a] == Commit(t) && g[b] == Commit(u);
    assert h[a] == Commit(t) && h[b] == Commit(u);
  }

  lemma LastCommits(h: History, i: nat, j: nat)
    requires Strict(h) && h != [] && i < j < |Serial(h)| && j >= |Serial(h[..|h| - 1])|
    ensures Serial(h)[i].tx == Serial(h)[j].tx || CommitsBefore(h, Serial(h)[i].tx, Serial(h)[j].tx)
  {
    var g, x := h[..|h| - 1], h[|h| - 1];
    var p, before := Project(g, {x.tx}), Serial(g);
    assert x.Commit? && Serial(h) == before + p;
    ProjectMembers(g, {x.tx}, p[j - |before|]);
    if i < |before| {
      StrictPrefix(h);
      InSerial(g, before[i]);
      CommitIsRecorded(g, before[i].tx);
      var a :| 0 <= a < |g| && g[a] == Commit(before[i].tx);
      assert h[a] == Commit(before[i].tx) && h[|h| - 1] == Commit(x.tx);
    } else {
      ProjectMembers(g, {x.tx}, p[i - |before|]);
    }
  }

  lemma InSerial(h: History, e: Event)
    requires Strict(h) && e in Serial(h)
    ensures e.tx in CommittedIn(h)
  {
    SerialCounts(h, e);
    assert multiset(Serial(h))[e] > 0;
  }

  /** In every run the serial execution is made of exactly the operations granted to those who committed. */
  lemma NothingLeftOut(scheme: Scheme, steps: seq<Step>, states: seq<State>, e: Event)
    requires IsRun(scheme, steps, states)
    ensures var s := states[|steps|];
            multiset(Serial(s.history))[e] == multiset(Project(s.history, s.committed))[e]
            == if e.Granted? && e.tx in s.committed then multiset(s.history)[e] else 0
  {
    hide Inv, Strict;
    var s := states[|steps|];
    RunKeepsInv(scheme, steps, states);
    CommittedAsRecorded(s);
    InvImpliesStrict(s);
    SerialCounts(s.history, e);
    ProjectCounts(s.history, s.committed, e);
  }
}
