/** What holds in every run of the lock-based engine, under each prevention scheme. */
module LockSafety {
  import opened Wrappers
  import opened WaitsFor
  import opened Serializability
  import opened LockTable

  // ---- the lock and transaction tables ----

  lemma SomeHolderLeft(hs: set<TxId>, ts: set<TxId>)
    requires !(hs <= ts)
    ensures hs - ts != {}
  {
    assert exists t :: t in hs && t !in ts by {
      if forall t :: t in hs ==> t in ts {
        assert false;
      }
    }
    var t :| t in hs && t !in ts;
    assert t in hs - ts;
  }

  lemma ReleaseKeepsHeld(s: State, s': State, ts: set<TxId>)
    requires LocksHeld(s) && s'.locks == Release(s.locks, ts) && s'.active == s.active - ts
    ensures LocksHeld(s')
  {
    forall o | o in s'.locks ensures s'.locks[o].holders != {} {
      SomeHolderLeft(s.locks[o].holders, ts);
    }
  }

  lemma AbortKeepsCore(s: State, ts: set<TxId>)
    requires Core(s) && ts <= s.active
    ensures Core(AbortAll(s, ts))
  {
    ReleaseKeepsHeld(s, AbortAll(s, ts), ts);
  }

  lemma CommitKeepsCore(s: State, t: TxId)
    requires Core(s) && t in s.active
    ensures Core(CommitTx(s, t))
  {
    var s' := CommitTx(s, t);
    ReleaseKeepsHeld(s, s', {t});
    assert forall i | 0 <= i < |s.history| :: s'.history[i] == s.history[i];
    assert s'.history[|s.history|] == Commit(t);
    var h, h' := s.history, s'.history;
    forall i, j | 0 <= i < j < |h'| && Conflict(h'[i], h'[j])
      ensures h'[i].tx in s'.aborted || Commit(h'[i].tx) in h'[i..j]
    {
      assert Conflict(h[i], h[j]) && h'[i..j] == h[i..j];
    }
  }

  lemma WaitingKeepsCore(s: State, t: TxId, w: Option<TxId>)
    requires Core(s) && t in s.active
    ensures Core(SetWaiting(s, t, w))
  {
  }

  /** A transaction that is over, and was not aborted, committed after everything it was granted. */
  lemma CommittedLater(s: State, i: nat)
    requires Core(s) && i < |s.history| && s.history[i].Granted? && s.history[i].tx in s.committed
    ensures Commit(s.history[i].tx) in s.history[i..]
  {
    var h := s.history;
    var j :| 0 <= j < |h| && h[j] == Commit(h[i].tx);
    assert i < j && h[i..][j - i] == h[j];
  }

  lemma GrantKeepsTwoPhase(s: State, t: TxId, o: Obj, a: Action)
    requires Core(s) && t in s.active && Blockers(s.locks, t, o, a) == {}
    ensures LocksHeld(Grant(s, t, o, a)) && TwoPhase(Grant(s, t, o, a))
  {
    var h, h', locks' := s.history, s.history + [Granted(t, o, a)], Granting(s.locks, t, o, a);
    forall i | 0 <= i < |h'| && h'[i].Granted? && h'[i].tx in s.active
      ensures h'[i].obj in locks' && h'[i].tx in locks'[h'[i].obj].holders
      ensures h'[i].action == Write ==> locks'[h'[i].obj].kind == Write
    {
      if i < |h| && h[i].obj == o && h[i].tx != t {
        assert h[i].tx in s.locks[o].holders && h[i].tx !in Blockers(s.locks, t, o, a);
      }
    }
  }

  lemma UnblockedMeansOver(s: State, i: nat, t: TxId, o: Obj, a: Action)
    requires Core(s) && Blockers(s.locks, t, o, a) == {}
    requires i < |s.history| && Conflict(s.history[i], Granted(t, o, a))
    ensures s.history[i].tx in s.committed || s.history[i].tx in s.aborted
  {
    assert s.history[i].tx !in Blockers(s.locks, t, o, a);
  }

  lemma GrantKeepsSeparated(s: State, t: TxId, o: Obj, a: Action)
    requires Core(s) && t in s.active && Blockers(s.locks, t, o, a) == {}
    ensures Separated(Grant(s, t, o, a))
  {
    var h, h' := s.history, s.history + [Granted(t, o, a)];
    forall i, j | 0 <= i < j < |h'| && Conflict(h'[i], h'[j])
      ensures h'[i].tx in s.aborted || Commit(h'[i].tx) in h'[i..j]
    {
      assert h'[i..j] == h[i..j];
      if j < |h| {
        assert Conflict(h[i], h[j]);
      } else {
        UnblockedMeansOver(s, i, t, o, a);
        if h[i].tx in s.committed {
          CommittedLater(s, i);
          assert h[i..] == h'[i..j];
        }
      }
    }
  }

  lemma GrantKeepsCore(s: State, t: TxId, o: Obj, a: Action)
    requires Core(s) && t in s.active && Blockers(s.locks, t, o, a) == {}
    ensures Core(Grant(s, t, o, a))
  {
    GrantKeepsTwoPhase(s, t, o, a);
    GrantKeepsSeparated(s, t, o, a);
    var h := s.history + [Granted(t, o, a)];
    assert forall i | 0 <= i < |s.history| :: h[i] == s.history[i];
    forall u | u in s.committed ensures Commit(u) in h { }
  }

  // ---- the waits-for graph ----

  ghost predicate Subgraph(g: Graph, h: Graph) {
    forall a, b | Edge(g, a, b) :: Edge(h, a, b)
  }

  lemma SubgraphAcyclic(g: Graph, h: Graph)
    requires Subgraph(g, h) && Acyclic(h)
    ensures Acyclic(g)
  {
    forall c: seq<TxId> ensures !IsCycle(g, c) {
      if IsCycle(g, c) {
        assert IsCycle(h, c);
      }
    }
  }

  ghost predicate OneWay(g: Graph) {
    forall a, b, c | Edge(g, a, b) && Edge(g, a, c) :: b == c
  }

  lemma CycleNext(g: Graph, c: seq<TxId>, a: TxId, b: TxId)
    requires IsCycle(g, c) && OneWay(g) && a in c && Edge(g, a, b)
    ensures b in c
  {
    var i :| 0 <= i < |c| && c[i] == a;
    if i + 1 < |c| {
      assert Edge(g, c[i], c[i + 1]);
    }
  }

  /** When every transaction waits for at most one other, a cycle contains whatever cycle it meets. */
  lemma MeetingCycles(g: Graph, c: seq<TxId>, d: seq<TxId>, t: TxId)
    requires OneWay(g) && IsCycle(g, c) && IsCycle(g, d) && t in c && t in d
    ensures forall x | x in d :: x in c
  {
    var k :| 0 <= k < |d| && d[k] == t;
    FollowFrom(g, c, d, k, |d| - 1);
    CycleNext(g, c, d[|d| - 1], d[0]);
    forall j | 0 <= j < |d| ensures d[j] in c {
      FollowFrom(g, c, d, 0, j);
    }
  }

  lemma {:induction false} FollowFrom(g: Graph, c: seq<TxId>, d: seq<TxId>, i: nat, j: nat)
    requires OneWay(g) && IsCycle(g, c) && IsCycle(g, d) && i <= j < |d| && d[i] in c
    ensures d[j] in c
    decreases j
  {
    if i < j {
      FollowFrom(g, c, d, i, j - 1);
      assert Edge(g, d[j - 1], d[j]);
      CycleNext(g, c, d[j - 1], d[j]);
    }
  }

  /** Only the new edge can close a cycle. */
  lemma NewCycleMeets(s: State, t: TxId, w: TxId, c: seq<TxId>)
    requires Core(s) && t in s.active && Acyclic(Waits(s))
    requires IsCycle(Waits(SetWaiting(s, t, Some(w))), c)
    ensures t in c
  {
    var g, g' := Waits(s), Waits(SetWaiting(s, t, Some(w)));
    if t !in c {
      forall i | 0 <= i < |c| - 1 ensures Edge(g, c[i], c[i + 1]) {
        assert Edge(g', c[i], c[i + 1]);
      }
      assert IsCycle(g, c);
      assert false;
    }
  }

  /** Aborting one member of the cycle a new wait closes leaves no cycle at all. */
  lemma VictimBreaksDeadlock(s: State, t: TxId, w: TxId, c: seq<TxId>, v: TxId)
    requires Core(s) && t in s.active && Acyclic(Waits(s))
    requires IsCycle(Waits(SetWaiting(s, t, Some(w))), c) && v in c
    ensures v in s.active
    ensures Acyclic(Waits(AbortAll(SetWaiting(s, t, Some(w)), {v})))
  {
    var s1 := SetWaiting(s, t, Some(w));
    var g, g' := Waits(s1), Waits(AbortAll(s1, {v}));
    CycleNodesActive(g, c, v);
    NewCycleMeets(s, t, w, c);
    forall d: seq<TxId> ensures !IsCycle(g', d) {
      if IsCycle(g', d) {
        assert forall i | 0 <= i < |d| - 1 :: Edge(g', d[i], d[i + 1]);
        assert IsCycle(g, d);
        NewCycleMeets(s, t, w, d);
        MeetingCycles(g, d, c, t);
        CycleNodesActive(g', d, v);
      }
    }
  }

  lemma CycleNodesActive(g: Graph, c: seq<TxId>, v: TxId)
    requires IsCycle(g, c) && v in c
    ensures v in g
  {
    var i :| 0 <= i < |c| && c[i] == v;
    if i + 1 < |c| {
      assert Edge(g, c[i], c[i + 1]);
    }
  }

  // ---- every step ----

  lemma ResolvedKeeps(s: State, t: TxId, w: TxId, s': State)
    requires Inv(s) && t in s.active && Resolved(SetWaiting(s, t, Some(w)), s')
    ensures Inv(s')
  {
    var s1 := SetWaiting(s, t, Some(w));
    WaitingKeepsCore(s, t, Some(w));
    if !Acyclic(Waits(s1)) {
      var c: seq<TxId>, v :| IsCycle(Waits(s1), c) && IsYoungest(v, set x | x in c) && s' == AbortAll(s1, {v});
      VictimBreaksDeadlock(s, t, w, c, v);
      AbortKeepsCore(s1, {v});
    }
  }

  lemma AbortKeeps(s: State, ts: set<TxId>)
    requires Inv(s) && ts <= s.active
    ensures Inv(AbortAll(s, ts))
  {
    AbortKeepsCore(s, ts);
    SubgraphAcyclic(Waits(AbortAll(s, ts)), Waits(s));
  }

  lemma BlockersActive(s: State, t: TxId, o: Obj, a: Action)
    requires Core(s)
    ensures Blockers(s.locks, t, o, a) <= s.active - {t}
  {
    forall u | u in Blockers(s.locks, t, o, a) ensures u in s.active - {t} {
    }
  }

  lemma ValidateKeeps(scheme: Scheme, s: State, t: TxId, o: Obj, a: Action, s': State, r: Response)
    requires Inv(s) && t in s.active && Validate(scheme, s, t, o, a, s', r)
    ensures Inv(s')
    ensures r == Allowed ==> t in s'.active && Blockers(s'.locks, t, o, a) == {}
  {
    var b := Blockers(s.locks, t, o, a);
    BlockersActive(s, t, o, a);
    if b != {} && MustWait(scheme, t, b) {
      var h :| IsLeast(h, b) && Resolved(SetWaiting(s, t, Some(h)), s');
      ResolvedKeeps(s, t, h, s');
    } else if b != {} && scheme != WaitDie {
      if a == Write {
        AbortKeeps(s, b);
      } else {
        var h :| h in b && s' == AbortAll(s, {h});
        AbortKeeps(s, {h});
      }
    }
  }

  lemma GrantKeeps(s: State, t: TxId, o: Obj, a: Action)
    requires Inv(s) && t in s.active && Blockers(s.locks, t, o, a) == {}
    ensures Inv(Grant(SetWaiting(s, t, None), t, o, a))
  {
    WaitingKeepsCore(s, t, None);
    GrantKeepsCore(SetWaiting(s, t, None), t, o, a);
    SubgraphAcyclic(Waits(SetWaiting(s, t, None)), Waits(s));
  }

  lemma BeginKeeps(s: State, t: TxId)
    requires Inv(s) && t !in s.txs
    ensures Inv(s.(txs := s.txs[t := Tx(Active, None)], active := s.active + {t}))
  {
    var s' := s.(txs := s.txs[t := Tx(Active, None)], active := s.active + {t});
    SubgraphAcyclic(Waits(s'), Waits(s));
  }

  /** Every step, under every scheme, keeps the locks consistent and the waits-for graph acyclic. */
  lemma StepKeepsInv(scheme: Scheme, s: State, step: Step, s': State, r: Response)
    requires Inv(s) && Next(scheme, s, step, s', r)
    ensures Inv(s')
  {
    match step
    case Begin(t) =>
      if t !in s.txs {
        BeginKeeps(s, t);
      }
    case Request(t, o, a) =>
      if t in s.active {
        ValidateKeeps(scheme, s, t, o, a, s', r);
      }
    case Acquire(t, o, a) =>
      if t in s.active {
        var m, q :| Validate(scheme, s, t, o, a, m, q) &&
          if q == Allowed then r == Allowed && s' == Grant(SetWaiting(m, t, None), t, o, a) else r == Raised && s' == m;
        ValidateKeeps(scheme, s, t, o, a, m, q);
        if q == Allowed {
          GrantKeeps(m, t, o, a);
        }
      }
    case Finish(t) =>
      if t in s.active {
        CommitKeepsCore(s, t);
        SubgraphAcyclic(Waits(CommitTx(s, t)), Waits(s));
      }
    case Rollback(t) =>
      if t in s.active {
        AbortKeeps(s, {t});
      }
  }

  lemma MoveKeepsInv(scheme: Scheme, s: State, step: Step, s': State)
    requires Inv(s) && Moves(scheme, s, step, s')
    ensures Inv(s')
  {
    var r :| Next(scheme, s, step, s', r);
    StepKeepsInv(scheme, s, step, s', r);
  }

  lemma RunPrefix(scheme: Scheme, steps: seq<Step>, states: seq<State>)
    requires IsRun(scheme, steps, states) && steps != []
    ensures IsRun(scheme, steps[..|steps| - 1], states[..|steps|])
    ensures Moves(scheme, states[|steps| - 1], steps[|steps| - 1], states[|steps|])
  {
    forall i | 0 <= i < |steps| - 1 ensures Moves(scheme, states[i], steps[i], states[i + 1]) {
    }
  }

  lemma {:induction false} RunKeepsInv(scheme: Scheme, steps: seq<Step>, states: seq<State>)
    requires IsRun(scheme, steps, states)
    ensures Inv(states[|steps|])
  {
    if steps == [] {
      assert Waits(INITIAL) == map[];
    } else {
      var n := |steps| - 1;
      RunPrefix(scheme, steps, states);
      RunKeepsInv(scheme, steps[..n], states[..n + 1]);
      MoveKeepsInv(scheme, states[n], steps[n], states[n + 1]);
    }
  }

  lemma CommittedAsRecorded(s: State)
    requires Inv(s)
    ensures CommittedIn(s.history) == s.committed
  {
    forall t ensures t in CommittedIn(s.history) <==> t in s.committed {
      CommitIsRecorded(s.history, t);
    }
  }

  lemma InvImpliesStrict(s: State)
    requires Inv(s)
    ensures Strict(s.history)
  {
    CommittedAsRecorded(s);
  }

  /** Every run is serializable in commit order, whatever the prevention scheme. */
  lemma RunSerializable(scheme: Scheme, steps: seq<Step>, states: seq<State>)
    requires IsRun(scheme, steps, states)
    ensures var s := states[|steps|];
            Execute(START, Project(s.history, s.committed)) == Execute(START, Serial(s.history))
  {
    var s := states[|steps|];
    RunKeepsInv(scheme, steps, states);
    CommittedAsRecorded(s);
    InvImpliesStrict(s);
    CommitOrderSerializes(s.history);
  }
}
