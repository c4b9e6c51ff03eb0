/** Who waits for whom, who is aborted, and who is sure to be served. */
module LockLiveness {
  import opened Wrappers
  import opened WaitsFor
  import opened Serializability
  import opened LockTable
  import opened LockSafety

  lemma {:induction false} PathGoesDown(g: Graph, p: seq<TxId>)
    requires p != [] && IsPath(g, p)
    requires forall a, b | Edge(g, a, b) :: b < a
    ensures p[|p| - 1] <= p[0]
  {
    if |p| > 1 {
      var q := p[..|p| - 1];
      assert forall i | 0 <= i < |q| - 1 :: Edge(g, p[i], p[i + 1]);
      PathGoesDown(g, q);
      assert Edge(g, p[|p| - 2], p[|p| - 1]);
    }
  }

  lemma DownwardIsAcyclic(g: Graph)
    requires forall a, b | Edge(g, a, b) :: b < a
    ensures Acyclic(g)
  {
    forall c: seq<TxId> ensures !IsCycle(g, c) {
      if IsCycle(g, c) {
        PathGoesDown(g, c);
      }
    }
  }

  lemma RecordedOlder(s: State, t: TxId, h: TxId)
    requires WaitsForOlder(s) && t in s.active && t in s.txs && h < t
    ensures WaitsForOlder(SetWaiting(s, t, Some(h)))
    ensures forall a, b | Edge(Waits(SetWaiting(s, t, Some(h))), a, b) :: b < a
  {
  }

  /** Wound-wait never has to choose a deadlock victim: a denied request changes nothing but the
      requester's own waiting mark, which names an older transaction. */
  lemma WoundWaitHasNoVictim(s: State, t: TxId, o: Obj, a: Action, s': State)
    requires Inv(s) && WaitsForOlder(s) && t in s.active
    requires Validate(WoundWait, s, t, o, a, s', Denied)
    ensures WaitsForOlder(s')
    ensures exists h :: h < t && h in Blockers(s.locks, t, o, a) && s' == SetWaiting(s, t, Some(h))
  {
    hide Acyclic, Waits, Edge, SetWaiting, TwoPhase, Separated, Recorded, LocksHeld, Blockers;
    var b := Blockers(s.locks, t, o, a);
    var h :| IsLeast(h, b) && Resolved(SetWaiting(s, t, Some(h)), s');
    BlockersActive(s, t, o, a);
    RecordedOlder(s, t, h);
    DownwardIsAcyclic(Waits(SetWaiting(s, t, Some(h))));
  }

  lemma WoundWaitStep(s: State, step: Step, s': State, r: Response)
    requires Inv(s) && WaitsForOlder(s) && Next(WoundWait, s, step, s', r)
    ensures WaitsForOlder(s')
  {
    match step
    case Begin(t) =>
    case Request(t, o, a) =>
      if t in s.active && r == Denied {
        WoundWaitHasNoVictim(s, t, o, a, s');
      }
    case Acquire(t, o, a) =>
      if t in s.active {
        var m, q :| Validate(WoundWait, s, t, o, a, m, q) &&
          if q == Allowed then r == Allowed && s' == Grant(SetWaiting(m, t, None), t, o, a) else r == Raised && s' == m;
        if q == Denied {
          WoundWaitHasNoVictim(s, t, o, a, m);
        }
      }
    case Finish(t) =>
    case Rollback(t) =>
  }

  /** In every run under wound-wait, waiting is only ever for an older transaction. */
  lemma {:induction false} WoundWaitRun(steps: seq<Step>, states: seq<State>)
    requires IsRun(WoundWait, steps, states)
    ensures Inv(states[|steps|]) && WaitsForOlder(states[|steps|])
  {
    RunKeepsInv(WoundWait, steps, states);
    if steps != [] {
      var n := |steps| - 1;
      RunPrefix(WoundWait, steps, states);
      WoundWaitRun(steps[..n], states[..n + 1]);
      var r :| Next(WoundWait, states[n], steps[n], states[n + 1], r);
      WoundWaitStep(states[n], steps[n], states[n + 1], r);
    }
  }

  /** Under wound-wait the oldest active transaction is never told to wait. Its request is allowed at
      once exactly when it writes or nothing blocks it; a read that meets a younger writer aborts the
      writer and raises, and the same read is allowed when repeated. */
  lemma OldestIsServed(s: State, t: TxId, o: Obj, a: Action, s': State, r: Response)
    requires Inv(s) && IsLeast(t, s.active)
    requires Validate(WoundWait, s, t, o, a, s', r)
    ensures r == Allowed <==> a == Write || Blockers(s.locks, t, o, a) == {}
    ensures r != Allowed ==> r == Raised && Validate(WoundWait, s', t, o, a, s', Allowed)
    ensures t in s'.active && Blockers(s'.locks, t, o, a) == {}
  {
    var b := Blockers(s.locks, t, o, a);
    BlockersActive(s, t, o, a);
    if b != {} && a == Read {
      var h :| h in b && s' == AbortAll(s, {h});
      assert forall u :: u in s.locks[o].holders ==> u in {h};
      assert s.locks[o].holders <= {h};
    }
  }

  /** A transaction that is over holds no lock, and nobody else lost one. */
  lemma EndingReleases(s: State, t: TxId, o: Obj, u: TxId)
    requires Inv(s) && t in s.active
    ensures o in CommitTx(s, t).locks && u in CommitTx(s, t).locks[o].holders
            <==> u != t && o in s.locks && u in s.locks[o].holders
    ensures CommitTx(s, t).locks == AbortAll(s, {t}).locks
  {
    if o in s.locks && u in s.locks[o].holders && u != t {
      assert !(s.locks[o].holders <= {t});
    }
  }

  // ---- when a refused request ends in a deadlock ----

  /** Following the recorded waits leads from one transaction to another. */
  ghost predicate Leads(g: Graph, a: TxId, b: TxId) {
    exists p: seq<TxId> :: IsPathTo(g, p, a, b)
  }

  ghost predicate IsPathTo(g: Graph, p: seq<TxId>, a: TxId, b: TxId) {
    p != [] && IsPath(g, p) && p[0] == a && p[|p| - 1] == b
  }

  lemma {:induction false} FirstArrival(g: Graph, p: seq<TxId>, a: TxId, b: TxId) returns (q: seq<TxId>)
    requires IsPathTo(g, p, a, b)
    ensures IsPathTo(g, q, a, b) && forall i | 0 <= i < |q| - 1 :: q[i] != b
  {
    if i :| 0 <= i < |p| - 1 && p[i] == b {
      assert forall j | 0 <= j < i :: Edge(g, p[j], p[j + 1]);
      q := FirstArrival(g, p[..i + 1], a, b);
    } else {
      q := p;
    }
  }

  /** A path up to the requester is one before and after its wait is recorded. */
  lemma SameArrival(s: State, t: TxId, w: TxId, p: seq<TxId>, a: TxId)
    requires t in s.active && t in s.txs
    ensures var g, g' := Waits(s), Waits(SetWaiting(s, t, Some(w)));
            (forall i | 0 <= i < |p| - 1 :: p[i] != t) ==> (IsPathTo(g, p, a, t) <==> IsPathTo(g', p, a, t))
  {
    var g, g' := Waits(s), Waits(SetWaiting(s, t, Some(w)));
    if forall i | 0 <= i < |p| - 1 :: p[i] != t {
      forall i | 0 <= i < |p| - 1 ensures Edge(g, p[i], p[i + 1]) <==> Edge(g', p[i], p[i + 1]) {
      }
    }
  }

  /** A cycle through the requester is a path to it from the transaction it waits for. */
  lemma CycleArrives(g: Graph, c: seq<TxId>, t: TxId, w: TxId)
    requires IsCycle(g, c) && t in c && forall b | Edge(g, t, b) :: b == w
    ensures Leads(g, w, t)
  {
    var i :| 0 <= i < |c| && c[i] == t;
    if i == |c| - 1 {
      assert Edge(g, t, c[0]);
      assert IsPathTo(g, c, w, t);
    } else {
      assert Edge(g, c[i], c[i + 1]);
      var p := c[i + 1..] + c[..i + 1];
      forall j | 0 <= j < |p| - 1 ensures Edge(g, p[j], p[j + 1]) {
        if j < |c| - i - 2 {
          assert Edge(g, c[i + 1 + j], c[i + 2 + j]);
        } else if j > |c| - i - 2 {
          assert Edge(g, c[j - (|c| - i - 1)], c[j - (|c| - i - 1) + 1]);
        }
      }
      assert IsPathTo(g, p, w, t);
    }
  }

  /** A new wait closes a cycle exactly if the recorded waits lead from the one waited for to the one waiting. */
  lemma ClosesCycleIff(s: State, t: TxId, w: TxId)
    requires Inv(s) && t in s.active
    ensures !Acyclic(Waits(SetWaiting(s, t, Some(w)))) <==> Leads(Waits(s), w, t)
  {
    var g, g' := Waits(s), Waits(SetWaiting(s, t, Some(w)));
    if Leads(g, w, t) {
      var p :| IsPathTo(g, p, w, t);
      var q := FirstArrival(g, p, w, t);
      SameArrival(s, t, w, q, w);
      assert Edge(g', t, w);
      assert IsCycle(g', q);
    }
    if !Acyclic(g') {
      var c: seq<TxId> :| IsCycle(g', c);
      NewCycleMeets(s, t, w, c);
      CycleArrives(g', c, t, w);
      var p :| IsPathTo(g', p, w, t);
      var q := FirstArrival(g', p, w, t);
      SameArrival(s, t, w, q, w);
      assert IsPathTo(g, q, w, t);
    }
  }

  /** Under every scheme a refused request has a victim exactly if the recorded waits lead from the oldest
      blocker to the requester; otherwise only the requester's wait is recorded. */
  lemma RefusedHasVictimIff(scheme: Scheme, s: State, t: TxId, o: Obj, a: Action, s': State)
    requires Inv(s) && t in s.active && Validate(scheme, s, t, o, a, s', Denied)
    ensures exists h :: IsLeast(h, Blockers(s.locks, t, o, a)) && Refused(s, t, h, s')
  {
    var h :| IsLeast(h, Blockers(s.locks, t, o, a)) && Resolved(SetWaiting(s, t, Some(h)), s');
    var s1 := SetWaiting(s, t, Some(h));
    ClosesCycleIff(s, t, h);
    if !Acyclic(Waits(s1)) {
      var c: seq<TxId>, v :| IsCycle(Waits(s1), c) && IsYoungest(v, set x | x in c) && s' == AbortAll(s1, {v});
      CycleNodesActive(Waits(s1), c, v);
      assert v in s'.aborted && v !in s1.aborted;
    }
  }

  /** The youngest of a cycle through the requester is aborted, or nothing more happens. */
  ghost predicate Refused(s: State, t: TxId, h: TxId, s': State) {
    var s1 := SetWaiting(s, t, Some(h));
    && (Leads(Waits(s), h, t) <==> s' != s1)
    && (s' != s1 ==> exists c: seq<TxId>, v :: IsCycle(Waits(s1), c) && IsYoungest(v, set x | x in c) && s' == AbortAll(s1, {v}))
  }

  // ---- wait-die ----

  /** Under wait-die as it is meant a transaction only ever waits for a younger one. */
  ghost predicate WaitsForYounger(s: State) {
    forall t | t in s.active && t in s.txs && s.txs[t].waitingFor.Some? :: t < s.txs[t].waitingFor.value
  }

  lemma {:induction false} PathGoesUp(g: Graph, p: seq<TxId>)
    requires p != [] && IsPath(g, p)
    requires forall a, b | Edge(g, a, b) :: a < b
    ensures p[0] <= p[|p| - 1]
  {
    if |p| > 1 {
      var q := p[..|p| - 1];
      assert forall i | 0 <= i < |q| - 1 :: Edge(g, p[i], p[i + 1]);
      PathGoesUp(g, q);
      assert Edge(g, p[|p| - 2], p[|p| - 1]);
    }
  }

  lemma UpwardIsAcyclic(g: Graph)
    requires forall a, b | Edge(g, a, b) :: a < b
    ensures Acyclic(g)
  {
    forall c: seq<TxId> ensures !IsCycle(g, c) {
      if IsCycle(g, c) {
        PathGoesUp(g, c);
      }
    }
  }

  lemma RecordedYounger(s: State, t: TxId, h: TxId)
    requires WaitsForYounger(s) && t in s.active && t in s.txs && t < h
    ensures WaitsForYounger(SetWaiting(s, t, Some(h)))
    ensures forall a, b | Edge(Waits(SetWaiting(s, t, Some(h))), a, b) :: a < b
  {
  }

  /** While waits are for younger ones and all the blockers are younger, a refusal chooses no victim. */
  lemma WaitDieHasNoVictim(s: State, t: TxId, o: Obj, a: Action, s': State)
    requires Inv(s) && WaitsForYounger(s) && t in s.active
    requires Validate(WaitDie, s, t, o, a, s', Denied) && forall u | u in Blockers(s.locks, t, o, a) :: t < u
    ensures WaitsForYounger(s')
    ensures exists h :: t < h && h in Blockers(s.locks, t, o, a) && s' == SetWaiting(s, t, Some(h))
  {
    hide Acyclic, Waits, Edge, SetWaiting, TwoPhase, Separated, Recorded, LocksHeld, Blockers;
    var b := Blockers(s.locks, t, o, a);
    var h :| IsLeast(h, b) && Resolved(SetWaiting(s, t, Some(h)), s');
    RecordedYounger(s, t, h);
    UpwardIsAcyclic(Waits(SetWaiting(s, t, Some(h))));
  }

  /** The holders a request meets are all younger than it, or all older: what a lock with one holder gives. */
  ghost predicate MeetsOneSide(s: State, step: Step) {
    match step
    case Request(t, o, a) => OneSide(t, Blockers(s.locks, t, o, a))
    case Acquire(t, o, a) => OneSide(t, Blockers(s.locks, t, o, a))
    case _ => true
  }

  ghost predicate OneSide(t: TxId, ts: set<TxId>) {
    (forall u | u in ts :: t < u) || (forall u | u in ts :: u <= t)
  }

  lemma WaitDieStep(s: State, step: Step, s': State, r: Response)
    requires Inv(s) && WaitsForYounger(s) && Next(WaitDie, s, step, s', r) && MeetsOneSide(s, step)
    ensures WaitsForYounger(s')
    ensures (step.Request? || step.Acquire?) ==> s'.aborted == s.aborted
  {
    match step
    case Begin(t) =>
    case Request(t, o, a) =>
      if t in s.active && r == Denied {
        WaitDieHasNoVictim(s, t, o, a, s');
      }
    case Acquire(t, o, a) =>
      if t in s.active {
        var m, q :| Validate(WaitDie, s, t, o, a, m, q) &&
          if q == Allowed then r == Allowed && s' == Grant(SetWaiting(m, t, None), t, o, a) else r == Raised && s' == m;
        if q == Denied {
          WaitDieHasNoVictim(s, t, o, a, m);
        }
      }
    case Finish(t) =>
    case Rollback(t) =>
  }

  /** In every run under wait-die in which no request meets an older and a younger holder at once, waiting is
      only ever for a younger transaction, and no request aborts anybody. */
  lemma {:induction false} WaitDieRun(steps: seq<Step>, states: seq<State>)
    requires IsRun(WaitDie, steps, states) && forall i | 0 <= i < |steps| :: MeetsOneSide(states[i], steps[i])
    ensures Inv(states[|steps|]) && WaitsForYounger(states[|steps|])
    ensures forall i | 0 <= i < |steps| && (steps[i].Request? || steps[i].Acquire?) :: states[i + 1].aborted == states[i].aborted
  {
    RunKeepsInv(WaitDie, steps, states);
    if steps != [] {
      var n := |steps| - 1;
      RunPrefix(WaitDie, steps, states);
      assert forall i | 0 <= i < n :: steps[..n][i] == steps[i];
      assert forall i | 0 <= i < n + 1 :: states[..n + 1][i] == states[i];
      WaitDieRun(steps[..n], states[..n + 1]);
      forall i | 0 <= i < n && (steps[i].Request? || steps[i].Acquire?) ensures states[i + 1].aborted == states[i].aborted {
        assert steps[..n][i] == steps[i] && states[..n + 1][i + 1] == states[i + 1];
      }
      var r :| Next(WaitDie, states[n], steps[n], states[n + 1], r);
      WaitDieStep(states[n], steps[n], states[n + 1], r);
    }
  }

  // ---- wait-die does not always prevent deadlock ----

  // It lets a transaction wait when some holder is younger, and then records the oldest holder, which
  // may well be older: waits can point both ways.

  const T1 := Tx(Active, None)
  const BEGUN := State(map[], map[1 := T1, 2 := T1, 3 := T1], {1, 2, 3}, {}, {}, [])
  const SHARED := BEGUN.(locks := map["a" := Lock(Read, {1})], history := [Granted(1, "a", Read)])
  const SHARED2 := SHARED.(locks := SHARED.locks["a" := Lock(Read, {1} + {3})], history := SHARED.history + [Granted(3, "a", Read)])
  const LOCKED := SHARED2.(locks := SHARED2.locks["b" := Lock(Write, {2})],
                           history := SHARED2.history + [Granted(2, "b", Write)])
  const WAITING := LOCKED.(txs := LOCKED.txs[2 := Tx(Active, Some(1))])

  lemma WaitDieReachesDeadlock() returns (steps: seq<Step>, states: seq<State>)
    ensures IsRun(WaitDie, steps, states) && states[|steps|] == WAITING
    ensures forall i | 0 <= i < |steps| :: !steps[i].Rollback? && !steps[i].Finish?
  {
    var b1 := State(map[], map[1 := T1], {1}, {}, {}, []);
    var b2 := State(map[], map[1 := T1, 2 := T1], {1, 2}, {}, {}, []);
    steps := [Begin(1), Begin(2), Begin(3), Acquire(1, "a", Read), Acquire(3, "a", Read), Acquire(2, "b", Write), Request(2, "a", Write)];
    states := [INITIAL, b1, b2, BEGUN, SHARED, SHARED2, LOCKED, WAITING];
    hide Next;
    FirstThreeBegin(b1, b2);
    LocksTaken();
    OneWaits();
  }

  lemma FirstThreeBegin(b1: State, b2: State)
    requires b1 == State(map[], map[1 := T1], {1}, {}, {}, []) && b2 == State(map[], map[1 := T1, 2 := T1], {1, 2}, {}, {}, [])
    ensures Next(WaitDie, INITIAL, Begin(1), b1, Allowed) && Next(WaitDie, b1, Begin(2), b2, Allowed)
    ensures Next(WaitDie, b2, Begin(3), BEGUN, Allowed)
  {
  }

  lemma LocksTaken()
    ensures Next(WaitDie, BEGUN, Acquire(1, "a", Read), SHARED, Allowed) && Next(WaitDie, SHARED, Acquire(3, "a", Read), SHARED2, Allowed)
    ensures Next(WaitDie, SHARED2, Acquire(2, "b", Write), LOCKED, Allowed)
  {
    assert Validate(WaitDie, BEGUN, 1, "a", Read, BEGUN, Allowed);
    assert SHARED == Grant(SetWaiting(BEGUN, 1, None), 1, "a", Read);
    assert Validate(WaitDie, SHARED, 3, "a", Read, SHARED, Allowed);
    assert SHARED2 == Grant(SetWaiting(SHARED, 3, None), 3, "a", Read);
    assert Validate(WaitDie, SHARED2, 2, "b", Write, SHARED2, Allowed);
    assert LOCKED == Grant(SetWaiting(SHARED2, 2, None), 2, "b", Write);
  }

  lemma OneWaits()
    ensures Next(WaitDie, LOCKED, Request(2, "a", Write), WAITING, Denied)
  {
    var b := Blockers(LOCKED.locks, 2, "a", Write);
    assert 1 in b && 3 in b && IsLeast(1, b);
    assert SetWaiting(LOCKED, 2, Some(1)) == WAITING;
    DownwardIsAcyclic(Waits(WAITING));
  }

  lemma YoungerOfTwo(g: Graph, c: seq<TxId>, v: TxId)
    requires g.Keys == {1, 2} && g[1] == {2} && g[2] == {1}
    requires IsCycle(g, c) && IsYoungest(v, set x | x in c)
    ensures v == 2
  {
    CycleNodesActive(g, c, v);
    var d := [1, 2];
    assert v == d[0] || v == d[1];
    assert IsCycle(g, d);
    MeetingCycles(g, c, d, v);
    assert d[1] in c;
    var members := set x | x in c;
    assert 2 in members && IsYoungest(v, members);
    assert 2 <= v <= 2;
  }

  /** Transaction 1 now asks for what 2 holds: older than 2, it waits, and closes a cycle whose youngest
      member is aborted. Under wound-wait no request ever ends so (`WoundWaitHasNoVictim`). */
  lemma WaitDieAbortsAVictim(s': State, r: Response)
    requires Validate(WaitDie, WAITING, 1, "b", Read, s', r)
    ensures r == Denied && s'.aborted == {2}
  {
    hide Blockers, SetWaiting, Waits, IsCycle, AbortAll;
    var b := Blockers(WAITING.locks, 1, "b", Read);
    BlockedByTwo(b);
    var h :| IsLeast(h, b) && Resolved(SetWaiting(WAITING, 1, Some(h)), s');
    var s := SetWaiting(WAITING, 1, Some(2));
    TwoWait(s);
    var c: seq<TxId>, v :| IsCycle(Waits(s), c) && IsYoungest(v, set x | x in c) && s' == AbortAll(s, {v});
    YoungerOfTwo(Waits(s), c, v);
    AbortingTwo(s);
  }

  lemma BlockedByTwo(b: set<TxId>)
    requires b == Blockers(WAITING.locks, 1, "b", Read)
    ensures 2 in b && forall u | u in b :: u == 2
  {
  }

  lemma TwoWait(s: State)
    requires s == SetWaiting(WAITING, 1, Some(2))
    ensures var g := Waits(s); g.Keys == {1, 2} && g[1] == {2} && g[2] == {1} && IsCycle(g, [1, 2])
  {
    assert [1, 2][0] == 1 && [1, 2][1] == 2;
  }

  lemma AbortingTwo(s: State)
    requires s == SetWaiting(WAITING, 1, Some(2))
    ensures AbortAll(s, {2}).aborted == {2}
  {
  }
}
