/** Timestamp ordering: what is granted is as if the transactions had run one after another by timestamp. */
module Timestamp {
  import opened WaitsFor
  import opened Serializability

  datatype Stamps = Stamps(read: TxId, write: TxId)

  /** Conflicting operations are in timestamp order. */
  ghost predicate InOrder(h: History) {
    forall i, j | 0 <= i < j < |h| && Conflict(h[i], h[j]) :: h[i].tx <= h[j].tx
  }

  // ---- the order by timestamp ----

  function Placed(h: History, e: Event): History {
    if h == [] || h[|h| - 1].tx <= e.tx then h + [e]
    else Placed(h[..|h| - 1], e) + [h[|h| - 1]]
  }

  /** The operations by timestamp, those of one transaction in the order they were granted. */
  function ByTimestamp(h: History): History {
    if h == [] then [] else Placed(ByTimestamp(h[..|h| - 1]), h[|h| - 1])
  }

  ghost predicate Ascending(h: History) {
    forall i, j | 0 <= i < j < |h| :: h[i].tx <= h[j].tx
  }

  lemma {:induction false} PlacedMembers(h: History, e: Event)
    ensures multiset(Placed(h, e)) == multiset(h) + multiset{e}
  {
    if h != [] {
      assert h == h[..|h| - 1] + [h[|h| - 1]];
      PlacedMembers(h[..|h| - 1], e);
    }
  }

  lemma {:induction false} PlacedAscends(h: History, e: Event)
    requires Ascending(h)
    ensures Ascending(Placed(h, e))
  {
    if h != [] && h[|h| - 1].tx > e.tx {
      var g, p := h[..|h| - 1], Placed(h[..|h| - 1], e);
      PlacedAscends(g, e);
      PlacedMembers(g, e);
      forall i | 0 <= i < |p| ensures p[i].tx <= h[|h| - 1].tx {
        assert p[i] in multiset(p);
      }
    }
  }

  /** The reordering is serial: it has the same operations, by timestamp. */
  lemma {:induction false} ByTimestampIsSerial(h: History)
    ensures multiset(ByTimestamp(h)) == multiset(h) && Ascending(ByTimestamp(h))
  {
    if h != [] {
      assert h == h[..|h| - 1] + [h[|h| - 1]];
      ByTimestampIsSerial(h[..|h| - 1]);
      PlacedMembers(ByTimestamp(h[..|h| - 1]), h[|h| - 1]);
      PlacedAscends(ByTimestamp(h[..|h| - 1]), h[|h| - 1]);
    }
  }

  /** An operation moves in front of those of later timestamps, which it does not conflict with. */
  lemma {:induction false} PlacedExecutes(c: Outcome, h: History, e: Event)
    requires forall f | f in h && f.tx > e.tx :: !Conflict(f, e)
    ensures Execute(c, Placed(h, e)) == Execute(c, h + [e])
  {
    if h != [] && h[|h| - 1].tx > e.tx {
      var g, f := h[..|h| - 1], h[|h| - 1];
      PlacedExecutes(c, g, e);
      ExecuteAppend(c, Placed(g, e), [f]);
      ExecuteAppend(c, g, [e]);
      ExecuteAppend(c, h, [e]);
      Commute(Execute(c, g), f, e);
    }
  }

  /** Every read gets the version, and every object the last version, that running the transactions one
      after another by timestamp gives it. */
  lemma {:induction false} TimestampOrderSerializes(h: History)
    requires InOrder(h)
    ensures Execute(START, h) == Execute(START, ByTimestamp(h))
  {
    if h != [] {
      var g, e := h[..|h| - 1], h[|h| - 1];
      TimestampOrderSerializes(g);
      ByTimestampIsSerial(g);
      forall f | f in ByTimestamp(g) && f.tx > e.tx ensures !Conflict(f, e) {
        assert f in multiset(ByTimestamp(g)) && f in multiset(g);
        var i :| 0 <= i < |g| && g[i] == f;
        assert h[i] == f && h[|h| - 1] == e;
      }
      PlacedExecutes(START, ByTimestamp(g), e);
      ExecuteAppend(START, ByTimestamp(g), [e]);
    }
  }

  // ---- what the stamps stand for ----

  /** An operation conflicting with this one was granted to a later transaction. */
  ghost predicate Overtaken(h: History, obj: Obj, tx: TxId, action: Action) {
    exists e | e in h :: Conflict(e, Granted(tx, obj, action)) && tx < e.tx
  }

  /** Stamps begin at zero, so an identifier below it comes too late for an object that has any. */
  ghost predicate BelowZero(h: History, obj: Obj, tx: TxId, action: Action) {
    && tx < 0 && (exists t, a :: Granted(t, obj, a) in h)
    && (action == Write || forall t :: Granted(t, obj, Write) !in h)
  }

  /** The stamps of an object are those of its last writer and its latest reader, or zero. */
  ghost predicate Exact(table: map<Obj, Stamps>, h: History, obj: Obj) {
    && (obj in table <==> exists t, a :: Granted(t, obj, a) in h)
    && (obj in table ==>
          && (forall t :: Granted(t, obj, Write) in h ==> t <= table[obj].write)
          && (Granted(table[obj].write, obj, Write) in h || (table[obj].write == 0 && forall t :: Granted(t, obj, Write) !in h))
          && (forall t :: Granted(t, obj, Read) in h ==> t <= table[obj].read)
          && (Granted(table[obj].read, obj, Read) in h || table[obj].read == 0) && 0 <= table[obj].read)
  }

  predicate Allows(table: map<Obj, Stamps>, obj: Obj, tx: TxId, action: Action) {
    obj in table ==> tx >= table[obj].write && (action == Write ==> tx >= table[obj].read)
  }

  /** A request is refused exactly if a conflicting operation of a later transaction was granted. */
  lemma RefusedIff(table: map<Obj, Stamps>, h: History, obj: Obj, tx: TxId, action: Action)
    requires Exact(table, h, obj)
    ensures Allows(table, obj, tx, action) <==> !Overtaken(h, obj, tx, action) && !BelowZero(h, obj, tx, action)
  {
    forall e | e in h && Conflict(e, Granted(tx, obj, action))
      ensures exists t, a :: Granted(t, obj, a) in h
    {
      assert e == Granted(e.tx, obj, e.action);
    }
    if obj in table {
      var s := table[obj];
      if tx < s.write && Granted(s.write, obj, Write) in h {
        assert Conflict(Granted(s.write, obj, Write), Granted(tx, obj, action));
      }
      if action == Write && tx < s.read && Granted(s.read, obj, Read) in h {
        assert Conflict(Granted(s.read, obj, Read), Granted(tx, obj, action));
      }
      forall e | e in h && Conflict(e, Granted(tx, obj, action)) && tx < e.tx ensures !Allows(table, obj, tx, action) {
        assert e == Granted(e.tx, obj, e.action);
      }
    }
  }

  lemma StampedExact(table: map<Obj, Stamps>, h: History, obj: Obj, tx: TxId, action: Action)
    requires Exact(table, h, obj) && Allows(table, obj, tx, action)
    ensures Exact(table[obj := Stamped(table, obj, tx, action)], h + [Granted(tx, obj, action)], obj)
  {
    var e, more := Granted(tx, obj, action), h + [Granted(tx, obj, action)];
    assert forall f :: f in more <==> f in h || f == e;
    assert e in more;
  }

  lemma OtherExact(table: map<Obj, Stamps>, h: History, obj: Obj, tx: TxId, action: Action, other: Obj)
    requires Exact(table, h, other) && other != obj
    ensures Exact(table[obj := Stamped(table, obj, tx, action)], h + [Granted(tx, obj, action)], other)
  {
    var e, more := Granted(tx, obj, action), h + [Granted(tx, obj, action)];
    assert forall f :: f in more <==> f in h || f == e;
  }

  lemma GrantedInOrder(table: map<Obj, Stamps>, h: History, obj: Obj, tx: TxId, action: Action)
    requires InOrder(h) && Exact(table, h, obj) && Allows(table, obj, tx, action)
    ensures InOrder(h + [Granted(tx, obj, action)])
  {
    hide Exact, Allows;
    RefusedIff(table, h, obj, tx, action);
    assert forall i | 0 <= i < |h| :: h[i] in h;
  }

  // ---- the strategy ----

  class TimestampBasedStrategy {
    var timestampTable: map<Obj, Stamps>
    ghost var granted: History

    /** What was granted is in timestamp order, and the stamps tell of it exactly. */
    ghost predicate Valid()
      reads this
    {
      InOrder(granted) && forall obj :: Exact(timestampTable, granted, obj)
    }

    constructor ()
      ensures Valid() && timestampTable == map[] && granted == []
    {
      timestampTable, granted := map[], [];
    }

    /** A request is refused exactly if a conflicting operation of a later transaction was granted, or the
        identifier is below the zero that stamps begin at. */
    method ValidateObject(obj: Obj, tx: TxId, action: Action) returns (allowed: bool)
      requires Valid()
      ensures allowed <==> !Overtaken(granted, obj, tx, action) && !BelowZero(granted, obj, tx, action)
      ensures allowed == Allows(timestampTable, obj, tx, action)
    {
      RefusedIff(timestampTable, granted, obj, tx, action);
      if obj !in timestampTable {
        return true;
      }
      var entry := timestampTable[obj];
      match action {
        case Read => allowed := tx >= entry.write;
        case Write => allowed := tx >= entry.read && tx >= entry.write;
      }
    }

    /** Logging what was allowed keeps conflicting operations in timestamp order. */
    method LogObject(obj: Obj, tx: TxId, action: Action)
      requires Valid() && Allows(timestampTable, obj, tx, action)
      modifies this
      ensures Valid() && granted == old(granted) + [Granted(tx, obj, action)]
      ensures timestampTable == old(timestampTable)[obj := Stamped(old(timestampTable), obj, tx, action)]
    {
      hide Exact, InOrder, Allows;
      ghost var table, before := timestampTable, granted;
      var entry := if obj in timestampTable then timestampTable[obj] else Stamps(0, 0);
      match action {
        case Write => entry := entry.(write := tx);
        case Read => entry := entry.(read := if entry.read < tx then tx else entry.read);
      }
      timestampTable := timestampTable[obj := entry];
      granted := granted + [Granted(tx, obj, action)];
      GrantedInOrder(table, before, obj, tx, action);
      forall other ensures Exact(timestampTable, granted, other) {
        if other == obj {
          StampedExact(table, before, obj, tx, action);
        } else {
          OtherExact(table, before, obj, tx, action, other);
        }
      }
    }

    /** Any run of requests, each logged if it is allowed: each is refused for what was granted before it, and
        the granted operations compute what the transactions would, run one after another by timestamp. */
    method Run(requests: seq<(Obj, TxId, Action)>) returns (answers: seq<bool>)
      requires Valid()
      modifies this
      ensures Valid() && Execute(START, granted) == Execute(START, ByTimestamp(granted))
      ensures |answers| == |requests| && granted == old(granted) + Allowed(requests, answers)
      ensures forall i: nat | i < |requests| :: Judged(old(granted), requests, answers, i)
    {
      hide Execute, ByTimestamp, InOrder, Overtaken, BelowZero, Exact, Allows;
      answers := [];
      var i := 0;
      assert requests[..0] == [];
      while i < |requests|
        invariant i <= |requests| && |answers| == i && Valid()
        invariant granted == old(granted) + Allowed(requests[..i], answers)
        invariant forall j: nat | j < i :: Judged(old(granted), requests[..i], answers, j)
      {
        var (obj, tx, action) := requests[i];
        var allowed := ValidateObject(obj, tx, action);
        MoreAllowed(requests[..i], answers, requests[i], allowed);
        assert requests[..i + 1] == requests[..i] + [requests[i]];
        MoreJudged(old(granted), requests[..i], answers, requests[i], allowed);
        if allowed {
          LogObject(obj, tx, action);
        }
        answers := answers + [allowed];
        i := i + 1;
      }
      assert requests[..i] == requests;
      TimestampOrderSerializes(granted);
    }
  }

  /** The requests that were allowed, as operations. */
  ghost function Allowed(requests: seq<(Obj, TxId, Action)>, answers: seq<bool>): History
    requires |answers| == |requests|
  {
    if requests == [] then []
    else
      var n := |requests| - 1;
      Allowed(requests[..n], answers[..n]) + if answers[n] then [Granted(requests[n].1, requests[n].0, requests[n].2)] else []
  }

  /** Request `i` was answered by what had been granted when it came. */
  ghost predicate Judged(before: History, requests: seq<(Obj, TxId, Action)>, answers: seq<bool>, i: nat)
    requires |answers| == |requests| && i < |requests|
  {
    var h, (obj, tx, action) := before + Allowed(requests[..i], answers[..i]), requests[i];
    answers[i] <==> !Overtaken(h, obj, tx, action) && !BelowZero(h, obj, tx, action)
  }

  lemma MoreAllowed(requests: seq<(Obj, TxId, Action)>, answers: seq<bool>, x: (Obj, TxId, Action), allowed: bool)
    requires |answers| == |requests|
    ensures Allowed(requests + [x], answers + [allowed]) == Allowed(requests, answers) + if allowed then [Granted(x.1, x.0, x.2)] else []
  {
    assert (requests + [x])[..|requests|] == requests && (answers + [allowed])[..|requests|] == answers;
  }

  lemma MoreJudged(before: History, requests: seq<(Obj, TxId, Action)>, answers: seq<bool>, x: (Obj, TxId, Action), allowed: bool)
    requires |answers| == |requests| && forall j: nat | j < |requests| :: Judged(before, requests, answers, j)
    requires var h := before + Allowed(requests, answers); allowed <==> !Overtaken(h, x.0, x.1, x.2) && !BelowZero(h, x.0, x.1, x.2)
    ensures var more, told := requests + [x], answers + [allowed];
            forall j: nat | j < |more| :: Judged(before, more, told, j)
  {
    hide Judged, Overtaken, BelowZero, Allowed;
    var more, told := requests + [x], answers + [allowed];
    forall j: nat | j < |more| ensures Judged(before, more, told, j) {
      OneJudged(before, requests, answers, x, allowed, j);
    }
  }

  lemma OneJudged(before: History, requests: seq<(Obj, TxId, Action)>, answers: seq<bool>, x: (Obj, TxId, Action), allowed: bool, j: nat)
    requires |answers| == |requests| && j <= |requests|
    requires if j < |requests| then Judged(before, requests, answers, j)
             else var h := before + Allowed(requests, answers);
                  allowed <==> !Overtaken(h, x.0, x.1, x.2) && !BelowZero(h, x.0, x.1, x.2)
    ensures Judged(before, requests + [x], answers + [allowed], j)
  {
    hide Overtaken, BelowZero, Allowed;
    assert (requests + [x])[..j] == requests[..j] && (answers + [allowed])[..j] == answers[..j];
    assert requests[..|requests|] == requests && answers[..|answers|] == answers;
  }

  function Stamped(table: map<Obj, Stamps>, obj: Obj, tx: TxId, action: Action): Stamps {
    var entry := if obj in table then table[obj] else Stamps(0, 0);
    if action == Write then entry.(write := tx) else entry.(read := if entry.read < tx then tx else entry.read)
  }
}
