/** Histories of granted operations, what they compute, and when they are equivalent to a serial one. */
module Serializability {
  import opened WaitsFor

  type Obj = string

  datatype Action = Read | Write

  datatype Event =
    | Granted(tx: TxId, obj: Obj, action: Action)
    | Commit(tx: TxId)

  type History = seq<Event>

  predicate Conflict(e: Event, f: Event) {
    && e.Granted? && f.Granted?
    && e.tx != f.tx && e.obj == f.obj && (e.action == Write || f.action == Write)
  }

  // A version names its writer and everything that writer had read and written before, so two
  // executions with equal versions agree under every meaning given to the transactions.
  datatype Version = Initial(obj: Obj) | By(writer: TxId, knew: seq<Version>)

  /** The store, and for each transaction the versions it read and wrote, in order. */
  datatype Outcome = Outcome(store: map<Obj, Version>, trace: map<TxId, seq<Version>>)

  function Current(c: Outcome, o: Obj): Version {
    if o in c.store then c.store[o] else Initial(o)
  }

  function Trace(c: Outcome, t: TxId): seq<Version> {
    if t in c.trace then c.trace[t] else []
  }

  function Apply(c: Outcome, e: Event): Outcome {
    match e
    case Commit(_) => c
    case Granted(t, o, Read) => c.(trace := c.trace[t := Trace(c, t) + [Current(c, o)]])
    case Granted(t, o, Write) =>
      var v := By(t, Trace(c, t));
      Outcome(c.store[o := v], c.trace[t := Trace(c, t) + [v]])
  }

  function Execute(c: Outcome, h: History): Outcome {
    if h == [] then c else Apply(Execute(c, h[..|h| - 1]), h[|h| - 1])
  }

  const START := Outcome(map[], map[])

  /** The granted operations of the transactions in `ts`, in the order they were granted. */
  function Project(h: History, ts: set<TxId>): History {
    if h == [] then []
    else
      var e := h[|h| - 1];
      Project(h[..|h| - 1], ts) + (if e.Granted? && e.tx in ts then [e] else [])
  }

  function CommittedIn(h: History): set<TxId> {
    if h == [] then {}
    else
      var e := h[|h| - 1];
      CommittedIn(h[..|h| - 1]) + (if e.Commit? then {e.tx} else {})
  }

  /** The committed transactions run one after another, in the order in which they committed. */
  function Serial(h: History): History {
    if h == [] then []
    else
      var e := h[|h| - 1];
      var before := Serial(h[..|h| - 1]);
      if e.Commit? then before + Project(h[..|h| - 1], {e.tx}) else before
  }

  /** Strictness: between two conflicting operations of committed transactions lies the first one's
      commit; and a transaction does nothing after its commit. */
  ghost predicate Strict(h: History) {
    && (forall i, j | 0 <= i < j < |h| && Conflict(h[i], h[j]) ::
          h[i].tx in CommittedIn(h) && h[j].tx in CommittedIn(h) ==> Commit(h[i].tx) in h[i..j])
    && (forall i, j | 0 <= i < j < |h| && h[i].Commit? :: h[j].tx != h[i].tx)
  }

  lemma {:induction false} ExecuteAppend(c: Outcome, h: History, k: History)
    ensures Execute(c, h + k) == Execute(Execute(c, h), k)
  {
    if k == [] {
      assert h + k == h;
    } else {
      assert (h + k)[..|h + k| - 1] == h + k[..|k| - 1];
      ExecuteAppend(c, h, k[..|k| - 1]);
    }
  }

  lemma UpdatesCommute<K, V>(m: map<K, V>, a: K, x: V, b: K, y: V)
    requires a != b
    ensures m[a := x][b := y] == m[b := y][a := x]
  {
  }

  lemma Commute(c: Outcome, e: Event, f: Event)
    requires e.tx != f.tx && !Conflict(e, f)
    ensures Apply(Apply(c, e), f) == Apply(Apply(c, f), e)
  {
    if e.Granted? && f.Granted? {
      var v := if e.action == Read then Current(c, e.obj) else By(e.tx, Trace(c, e.tx));
      var w := if f.action == Read then Current(c, f.obj) else By(f.tx, Trace(c, f.tx));
      UpdatesCommute(c.trace, e.tx, Trace(c, e.tx) + [v], f.tx, Trace(c, f.tx) + [w]);
      if e.action == Write && f.action == Write {
        UpdatesCommute(c.store, e.obj, v, f.obj, w);
      }
    }
  }

  /** An operation moves in front of a block of operations of others that it does not conflict with. */
  lemma {:induction false} MoveAcross(c: Outcome, k: History, e: Event)
    requires forall f | f in k :: f.tx != e.tx && !Conflict(f, e)
    ensures Apply(Execute(c, k), e) == Execute(Apply(c, e), k)
  {
    if k != [] {
      var f := k[|k| - 1];
      var k' := k[..|k| - 1];
      MoveAcross(c, k', e);
      Commute(Execute(c, k'), f, e);
    }
  }

  lemma ProjectMembers(h: History, ts: set<TxId>, f: Event)
    requires f in Project(h, ts)
    ensures f.Granted? && f.tx in ts && f in h
  {
  }

  lemma ProjectStep(h: History, ts: set<TxId>)
    requires h != []
    ensures var g, e := h[..|h| - 1], h[|h| - 1];
            Project(h, ts) == if e.Granted? && e.tx in ts then Project(g, ts) + [e] else Project(g, ts)
  {
  }

  /** No operation of `t` conflicts with a later one of a transaction in `ts`. */
  ghost predicate Unopposed(h: History, ts: set<TxId>, t: TxId) {
    forall i, j | 0 <= i < j < |h| && Conflict(h[i], h[j]) :: h[i].tx == t ==> h[j].tx !in ts
  }

  lemma UnopposedLast(h: History, ts: set<TxId>, t: TxId)
    requires h != [] && t !in ts && Unopposed(h, ts, t)
    ensures Unopposed(h[..|h| - 1], ts, t)
    ensures var e := h[|h| - 1];
            e.tx in ts ==> forall f | f in Project(h[..|h| - 1], {t}) :: f.tx != e.tx && !Conflict(f, e)
  {
    var g, e := h[..|h| - 1], h[|h| - 1];
    forall i, j | 0 <= i < j < |g| && Conflict(g[i], g[j]) && g[i].tx == t ensures g[j].tx !in ts {
      assert Conflict(h[i], h[j]);
    }
    if e.tx in ts {
      forall f | f in Project(g, {t}) ensures f.tx != e.tx && !Conflict(f, e) {
        ProjectMembers(g, {t}, f);
        var i :| 0 <= i < |g| && g[i] == f;
        assert h[i] == f && h[|h| - 1] == e;
      }
    }
  }

  /** Operations of `t` that conflict with nothing granted after them can be delayed to the end. */
  lemma {:induction false} DelayToCommit(h: History, ts: set<TxId>, t: TxId)
    requires t !in ts && Unopposed(h, ts, t)
    ensures Execute(START, Project(h, ts + {t})) == Execute(START, Project(h, ts) + Project(h, {t}))
  {
    if h != [] {
      UnopposedLast(h, ts, t);
      DelayToCommit(h[..|h| - 1], ts, t);
      ProjectStep(h, ts);
      ProjectStep(h, {t});
      ProjectStep(h, ts + {t});
      var g, e := h[..|h| - 1], h[|h| - 1];
      var all, p, q := Project(g, ts + {t}), Project(g, ts), Project(g, {t});
      DelayLast(all, p, q, e);
      if e.Granted? && e.tx == t {
        assert Project(h, ts + {t}) == all + [e] && Project(h, ts) + Project(h, {t}) == p + (q + [e]);
      } else if e.Granted? && e.tx in ts {
        assert Project(h, ts + {t}) == all + [e] && Project(h, ts) + Project(h, {t}) == (p + [e]) + q;
      } else {
        assert Project(h, ts + {t}) == all && Project(h, ts) + Project(h, {t}) == p + q;
      }
    }
  }

  /** One more operation: of the delayed block, or in front of it. */
  lemma DelayLast(all: History, p: History, q: History, e: Event)
    requires Execute(START, all) == Execute(START, p + q)
    ensures Execute(START, all + [e]) == Execute(START, p + (q + [e]))
    ensures (forall f | f in q :: f.tx != e.tx && !Conflict(f, e)) ==> Execute(START, all + [e]) == Execute(START, (p + [e]) + q)
  {
    ExecuteAppend(START, all, [e]);
    ExecuteAppend(START, p + q, [e]);
    assert p + (q + [e]) == (p + q) + [e];
    if forall f | f in q :: f.tx != e.tx && !Conflict(f, e) {
      ExecuteAppend(START, p, q);
      ExecuteAppend(START, p, [e]);
      ExecuteAppend(START, p + [e], q);
      MoveAcross(Execute(START, p), q, e);
    }
  }

  lemma CommitIsRecorded(h: History, t: TxId)
    ensures t in CommittedIn(h) <==> Commit(t) in h
  {
    if h != [] {
      assert h == h[..|h| - 1] + [h[|h| - 1]];
      CommitIsRecorded(h[..|h| - 1], t);
    }
  }

  lemma StrictPrefix(h: History)
    requires Strict(h) && h != []
    ensures Strict(h[..|h| - 1])
  {
    var g := h[..|h| - 1];
    forall i, j | 0 <= i < j < |g| && Conflict(g[i], g[j]) && g[i].tx in CommittedIn(g) && g[j].tx in CommittedIn(g)
      ensures Commit(g[i].tx) in g[i..j]
    {
      assert Conflict(h[i], h[j]);
      assert g[i..j] == h[i..j];
    }
  }

  lemma LastIsLive(h: History)
    requires Strict(h) && h != []
    ensures h[|h| - 1].tx !in CommittedIn(h[..|h| - 1])
  {
    var g, t := h[..|h| - 1], h[|h| - 1].tx;
    CommitIsRecorded(g, t);
    forall i | 0 <= i < |g| ensures g[i] != Commit(t) {
      assert g[i] == h[i];
    }
  }

  lemma CommitterUnopposed(h: History)
    requires Strict(h) && h != [] && h[|h| - 1].Commit?
    ensures var g, t := h[..|h| - 1], h[|h| - 1].tx; Unopposed(g, CommittedIn(g), t)
  {
    var g, t := h[..|h| - 1], h[|h| - 1].tx;
    LastIsLive(h);
    CommitIsRecorded(g, t);
    forall i, j | 0 <= i < j < |g| && Conflict(g[i], g[j]) && g[i].tx == t ensures g[j].tx !in CommittedIn(g) {
      assert Conflict(h[i], h[j]) && h[i..j] == g[i..j];
    }
  }

  /** Running the committed transactions' operations as they were granted gives every read the same
      version, and every object the same last version, as running the transactions in commit order. */
  lemma {:induction false} CommitOrderSerializes(h: History)
    requires Strict(h)
    ensures Execute(START, Project(h, CommittedIn(h))) == Execute(START, Serial(h))
  {
    if h != [] {
      var g, e := h[..|h| - 1], h[|h| - 1];
      StrictPrefix(h);
      CommitOrderSerializes(g);
      LastIsLive(h);
      var ts := CommittedIn(g);
      ProjectStep(h, CommittedIn(h));
      if e.Granted? {
        assert CommittedIn(h) == ts;
      } else {
        CommitterUnopposed(h);
        DelayToCommit(g, ts, e.tx);
        ExecuteAppend(START, Project(g, ts), Project(g, {e.tx}));
        ExecuteAppend(START, Serial(g), Project(g, {e.tx}));
      }
    }
  }
}
