/** What each step of the lock-based engine does to the lock table and the transaction table. */
module LockTable {
  import opened Wrappers
  import opened WaitsFor
  import opened Serializability

  datatype Scheme = WoundWait | WaitDie | Timeout

  datatype Lock = Lock(kind: Action, holders: set<TxId>)

  datatype Status = Active | PartiallyCommitted | Committed | Failed | Aborted | Terminated

  datatype Tx = Tx(status: Status, waitingFor: Option<TxId>)

  /** `Raised` is a Python exception leaving the call. */
  datatype Response = Allowed | Denied | Raised

  datatype State = State(
    locks: map<Obj, Lock>,
    txs: map<TxId, Tx>,
    active: set<TxId>,
    committed: set<TxId>,
    aborted: set<TxId>,
    history: History)

  const INITIAL := State(map[], map[], {}, {}, {}, [])

  // ---- the pieces of a step ----

  /** The holders that stand in the way of a request. */
  function Blockers(locks: map<Obj, Lock>, t: TxId, o: Obj, a: Action): set<TxId> {
    if o !in locks then {}
    else
      var l := locks[o];
      match a
      case Read => if l.kind == Read || t in l.holders then {} else l.holders
      case Write => if l.kind == Write && t in l.holders then {} else l.holders - {t}
  }

  ghost predicate IsYoungest(t: TxId, ts: set<TxId>) {
    t in ts && forall u | u in ts :: u <= t
  }

  ghost predicate MustWait(scheme: Scheme, t: TxId, holders: set<TxId>) {
    match scheme
    case WoundWait => exists u | u in holders :: u <= t
    case WaitDie => exists u | u in holders :: t < u
    case Timeout => true
  }

  /** Locks after the transactions in `ts` let go of theirs. */
  function Release(locks: map<Obj, Lock>, ts: set<TxId>): map<Obj, Lock> {
    map o | o in locks && !(locks[o].holders <= ts) :: locks[o].(holders := locks[o].holders - ts)
  }

  function Terminate(txs: map<TxId, Tx>, ts: set<TxId>): map<TxId, Tx> {
    map t | t in txs :: if t in ts then Tx(Terminated, None) else txs[t]
  }

  function AbortAll(s: State, ts: set<TxId>): State {
    s.(locks := Release(s.locks, ts), txs := Terminate(s.txs, ts), active := s.active - ts, aborted := s.aborted + ts)
  }

  function CommitTx(s: State, t: TxId): State {
    s.(locks := Release(s.locks, {t}), txs := Terminate(s.txs, {t}), active := s.active - {t},
       committed := s.committed + {t}, history := s.history + [Commit(t)])
  }

  function SetWaiting(s: State, t: TxId, w: Option<TxId>): State {
    if t in s.txs then s.(txs := s.txs[t := s.txs[t].(waitingFor := w)]) else s
  }

  function WaitGraph(txs: map<TxId, Tx>, active: set<TxId>): Graph {
    map t | t in active && t in txs && txs[t].waitingFor.Some? :: {txs[t].waitingFor.value}
  }

  function Waits(s: State): Graph {
    WaitGraph(s.txs, s.active)
  }

  function Granting(locks: map<Obj, Lock>, t: TxId, o: Obj, a: Action): map<Obj, Lock> {
    match a
    case Write => locks[o := Lock(Write, {t})]
    case Read =>
      if o !in locks then locks[o := Lock(Read, {t})]
      else if locks[o].kind == Read then locks[o := Lock(Read, locks[o].holders + {t})]
      else locks
  }

  function Grant(s: State, t: TxId, o: Obj, a: Action): State {
    s.(locks := Granting(s.locks, t, o, a), history := s.history + [Granted(t, o, a)])
  }

  // ---- the steps ----

  /** Deadlock detection: the youngest transaction of some cycle is aborted, if there is a cycle. */
  ghost predicate Resolved(s: State, s': State) {
    if Acyclic(Waits(s)) then s' == s
    else exists c: seq<TxId>, v :: IsCycle(Waits(s), c) && IsYoungest(v, set x | x in c) && s' == AbortAll(s, {v})
  }

  /** A request by an active transaction. */
  ghost predicate Validate(scheme: Scheme, s: State, t: TxId, o: Obj, a: Action, s': State, r: Response) {
    var b := Blockers(s.locks, t, o, a);
    if b == {} then
      s' == s && r == Allowed
    else if MustWait(scheme, t, b) then
      r == Denied && exists h :: IsLeast(h, b) && Resolved(SetWaiting(s, t, Some(h)), s')
    else if scheme == WaitDie then
      s' == s && r == Raised
    else if a == Write then
      s' == AbortAll(s, b) && r == Allowed
    else
      // The holders are iterated while the aborts take them out of the very same set, and Python
      // raises an error as soon as the first of them is gone.
      r == Raised && exists h :: h in b && s' == AbortAll(s, {h})
  }

  /** `log_object`: a request that, when allowed, takes the lock. */
  ghost predicate Log(scheme: Scheme, s: State, t: TxId, o: Obj, a: Action, s': State, r: Response) {
    exists m, q ::
      && Validate(scheme, s, t, o, a, m, q)
      && if q == Allowed then
           r == Allowed && s' == Grant(SetWaiting(m, t, None), t, o, a)
         else
           r == Raised && s' == m
  }

  datatype Step =
    | Begin(t: TxId)
    | Request(t: TxId, o: Obj, a: Action)
    | Acquire(t: TxId, o: Obj, a: Action)
    | Finish(t: TxId)
    | Rollback(t: TxId)

  ghost predicate Next(scheme: Scheme, s: State, step: Step, s': State, r: Response) {
    match step
    case Begin(t) =>
      if t in s.txs then s' == s && r == Raised
      else s' == s.(txs := s.txs[t := Tx(Active, None)], active := s.active + {t}) && r == Allowed
    case Request(t, o, a) =>
      if t !in s.txs then s' == s && r == Raised
      else if s.txs[t].status != Active then s' == s && r == Denied
      else Validate(scheme, s, t, o, a, s', r)
    case Acquire(t, o, a) =>
      if t !in s.txs || s.txs[t].status != Active then s' == s && r == Raised
      else Log(scheme, s, t, o, a, s', r)
    case Finish(t) =>
      if t !in s.txs || s.txs[t].status != Active then s' == s && r == Raised
      else s' == CommitTx(s, t) && r == Allowed
    case Rollback(t) =>
      if t !in s.txs || s.txs[t].status != Active then s' == s && r == Denied
      else s' == AbortAll(s, {t}) && r == Allowed
  }

  ghost predicate Moves(scheme: Scheme, s: State, step: Step, s': State) {
    exists r :: Next(scheme, s, step, s', r)
  }

  /** A run: the states it goes through, one more than the steps it takes. */
  ghost predicate IsRun(scheme: Scheme, steps: seq<Step>, states: seq<State>) {
    && |states| == |steps| + 1
    && states[0] == INITIAL
    && forall i | 0 <= i < |steps| :: Moves(scheme, states[i], steps[i], states[i + 1])
  }

  // ---- what every step keeps ----

  ghost predicate TablesAgree(s: State) {
    && (forall t | t in s.active :: t in s.txs && s.txs[t].status == Active)
    && (forall t | t in s.txs && t !in s.active :: s.txs[t].status == Terminated)
    && (forall t | t in s.txs :: t in s.active || t in s.committed || t in s.aborted)
    && (forall t | t in s.committed || t in s.aborted :: t in s.txs && t !in s.active)
    && (forall t | t in s.committed :: t !in s.aborted)
  }

  ghost predicate LocksHeld(s: State) {
    forall o | o in s.locks ::
      && s.locks[o].holders != {}
      && (forall t | t in s.locks[o].holders :: t in s.active)
      && (s.locks[o].kind == Write ==> forall t, u | t in s.locks[o].holders && u in s.locks[o].holders :: t == u)
  }

  /** An active transaction still holds a lock for everything it was granted. */
  ghost predicate TwoPhase(s: State) {
    forall i | 0 <= i < |s.history| && s.history[i].Granted? && s.history[i].tx in s.active ::
      var e := s.history[i];
      e.obj in s.locks && e.tx in s.locks[e.obj].holders && (e.action == Write ==> s.locks[e.obj].kind == Write)
  }

  /** A conflicting operation is granted only once the earlier one's transaction is over. */
  ghost predicate Separated(s: State) {
    forall i, j | 0 <= i < j < |s.history| && Conflict(s.history[i], s.history[j]) ::
      s.history[i].tx in s.aborted || Commit(s.history[i].tx) in s.history[i..j]
  }

  ghost predicate Recorded(s: State) {
    && (forall i | 0 <= i < |s.history| :: s.history[i].tx in s.txs)
    && (forall i | 0 <= i < |s.history| && s.history[i].Commit? :: s.history[i].tx in s.committed)
    && (forall t | t in s.committed :: Commit(t) in s.history)
    && (forall i, j | 0 <= i < j < |s.history| && s.history[i].Commit? :: s.history[j].tx != s.history[i].tx)
  }

  ghost predicate Core(s: State) {
    TablesAgree(s) && LocksHeld(s) && TwoPhase(s) && Separated(s) && Recorded(s)
  }

  ghost predicate Inv(s: State) {
    Core(s) && Acyclic(Waits(s))
  }

  /** Under wound-wait a transaction only ever waits for an older one. */
  ghost predicate WaitsForOlder(s: State) {
    forall t | t in s.active && t in s.txs && s.txs[t].waitingFor.Some? :: s.txs[t].waitingFor.value < t
  }
}
