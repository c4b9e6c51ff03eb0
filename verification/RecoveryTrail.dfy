/** The entries that undoing leaves in the log: which, in which order, and what they are good for. */
module RecoveryTrail {
  import opened Wrappers
  import opened BufferPool
  import opened WriteAheadLog
  import opened Recovery
  import opened RecoverySafety
  import opened BufferSteps
  import opened RecoveryRuns

  // ---- rollback ----

  /** A rollback logs the abort, and then for each operation of the transaction since its start, the latest first,
      an entry that reverses it; and nothing else. */
  lemma RollbackLogs(capacity: nat, s: State, tx: TxId, s': State) returns (start: nat, ps: seq<nat>, added: Log)
    requires RolledBack(capacity, s, tx, s')
    ensures s'.log == s.log + [Lifecycle(tx, Abort)] + added
    ensures AreSinceStart(s.log, tx, start, ps) && ReversesAt(added, s.log, ps)
  {
    var log := s.log + [Lifecycle(tx, Abort)];
    var operations := SinceStart(log, tx);
    start, ps := SinceStartAre(log, tx);
    assert log[|s.log|] == Lifecycle(tx, Abort);
    assert forall i | 0 <= i < |s.log| :: log[i] == s.log[i];
    assert start != |log|;
    added := Compensations(operations);
    CompensationsReverse(operations);
    forall i | 0 <= i < |ps| ensures ps[i] < |s.log| && Reverses(added[i], s.log[ps[i]]) {
      assert ps[i] in ps;
      assert operations[i] == log[ps[i]];
    }
  }

  ghost predicate Compensates(x: Entry, k: Key) {
    x.Compensation? && x.key == k
  }

  /** The last of these entries under a key has the first before-image since the start for its after-image. */
  lemma AddedEndAtFirst(log: Log, tx: TxId, start: nat, ps: seq<nat>, added: Log, i: nat, k: Key)
    requires AreSinceStart(log, tx, start, ps) && ReversesAt(added, log, ps)
    requires i < |added| && Compensates(added[i], k) && forall m | i < m < |added| :: !Compensates(added[m], k)
    ensures ps[i] < |log| && OpOn(log[ps[i]], k) && added[i].after == log[ps[i]].before
    ensures forall j | start <= j < ps[i] && OpOn(log[j], k) :: log[j].tx != tx
  {
    assert ps[i] in ps && Reverses(added[i], log[ps[i]]);
    forall m | 0 <= m < |ps| && OpOn(log[ps[m]], k) ensures ps[m] >= ps[i] {
      assert Reverses(added[m], log[ps[m]]);
      assert m > i ==> !Compensates(added[m], k);
    }
    assert forall j | j in ps && j < |log| && OpOn(log[j], k) :: j >= ps[i];
  }

  /** Where one image of the transaction is what the next operation found, the entries follow on each other too. */
  lemma AddedChain(log: Log, ps: seq<nat>, added: Log, i: nat, m: nat)
    requires ReversesAt(added, log, ps) && i < m < |added|
    requires log[ps[i]].Operation? && log[ps[m]].Operation? && log[ps[i]].before == log[ps[m]].after
    ensures added[i].Compensation? && added[m].Compensation? && added[i].after == added[m].before
  {
    assert Reverses(added[i], log[ps[i]]) && Reverses(added[m], log[ps[m]]);
  }

  // ---- recovery ----

  /** Undoing meets the entry: the transaction is to be undone, and does not start again later. */
  ghost predicate Met(log: Log, j: nat, undo: set<TxId>) {
    && j < |log| && (Effective(log[j]) || (log[j].Lifecycle? && log[j].action == Start))
    && log[j].tx in undo && !Started(log[j + 1..], log[j].tx)
  }

  ghost predicate Answers(x: Entry, e: Entry) {
    if e.Lifecycle? then x == Lifecycle(e.tx, Abort) else Reverses(x, e)
  }

  lemma MetLess(log: Log, j: nat, undo: set<TxId>)
    requires log != [] && j < |log| - 1
    ensures var n := |log| - 1;
            var e := log[n];
            Met(log[..n], j, if IsStart(e, undo) then undo - {e.tx} else undo) <==> Met(log, j, undo)
  {
    var n := |log| - 1;
    var rest, tail := log[..n], log[j + 1..];
    assert rest[j] == log[j] && tail[..|tail| - 1] == rest[j + 1..];
    if log[j].Lifecycle? || log[j].Operation? {
      StartedMore(tail, log[j].tx);
    }
  }

  /** The positions of the entries undoing meets, from the end. */
  ghost predicate AreMet(log: Log, undo: set<TxId>, ps: seq<nat>) {
    Descending(ps) && forall j :: j in ps <==> Met(log, j, undo)
  }

  ghost predicate AnswersAt(added: Log, log: Log, ps: seq<nat>) {
    |added| == |ps| && forall i | 0 <= i < |ps| :: ps[i] < |log| && Answers(added[i], log[ps[i]])
  }

  lemma NothingMet(log: Log, undo: set<TxId>)
    requires log == [] || undo == {}
    ensures AreMet(log, undo, []) && AnswersAt([], log, [])
  {
  }

  lemma OneMoreMet(log: Log, undo: set<TxId>, ps: seq<nat>)
    requires log != []
    requires var n, e := |log| - 1, log[|log| - 1]; AreMet(log[..n], if IsStart(e, undo) then undo - {e.tx} else undo, ps)
    ensures AreMet(log, undo, if Met(log, |log| - 1, undo) then [|log| - 1] + ps else ps)
  {
    hide Met, Descending;
    var n: nat, e := |log| - 1, log[|log| - 1];
    var left := if IsStart(e, undo) then undo - {e.tx} else undo;
    forall j: nat ensures j in ps <==> j < n && Met(log, j, undo) {
      MetWithin(log[..n], j, left);
      if j < n {
        MetLess(log, j, undo);
      }
    }
    forall j: nat ensures Met(log, j, undo) ==> j <= n {
      MetWithin(log, j, undo);
    }
    PrependDescending(n, ps);
  }

  lemma MetWithin(log: Log, j: nat, undo: set<TxId>)
    ensures Met(log, j, undo) ==> j < |log|
  {
  }

  lemma AnswersMore(x: Entry, added: Log, log: Log, ps: seq<nat>)
    requires log != [] && AnswersAt(added, log[..|log| - 1], ps)
    ensures AnswersAt(added, log, ps)
    ensures Answers(x, log[|log| - 1]) ==> AnswersAt([x] + added, log, [|log| - 1] + ps)
  {
    hide Answers;
  }

  /** The entries undoing adds answer those it meets, the latest first. */
  lemma {:induction false} TrailAnswers(log: Log, undo: set<TxId>) returns (ps: seq<nat>)
    ensures AreMet(log, undo, ps) && AnswersAt(Trail(log, undo), log, ps)
    decreases |log|
  {
    hide Started, AreMet, AnswersAt;
    if log == [] || undo == {} {
      ps := [];
      NothingMet(log, undo);
    } else {
      var n := |log| - 1;
      var e, rest := log[n], log[..n];
      var left := if IsStart(e, undo) then undo - {e.tx} else undo;
      ps := TrailAnswers(rest, left);
      OneMoreMet(log, undo, ps);
      NothingLater(log, n);
      if Effective(e) {
        AnswersMore(Compensation(e.tx, e.key, e.after, e.before), Trail(rest, left), log, ps);
      } else if IsStart(e, undo) {
        AnswersMore(Lifecycle(e.tx, Abort), Trail(rest, left), log, ps);
      } else {
        AnswersMore(e, Trail(rest, left), log, ps);
      }
      if Met(log, n, undo) {
        ps := [n] + ps;
      }
    }
  }

  lemma NothingLater(log: Log, n: nat)
    requires n + 1 == |log|
    ensures log[n + 1..] == [] && forall tx :: !Started([], tx)
  {
  }

  /** Where every transaction to be undone has a start, each gets one abort, and no start is among the entries. */
  lemma AbortsAll(log: Log, undo: set<TxId>, tx: TxId)
    requires tx in undo && Started(log, tx)
    ensures Lifecycle(tx, Abort) in Trail(log, undo)
  {
    var ps := TrailAnswers(log, undo);
    var j := LastStart(log, tx);
    assert Met(log, j, undo) && j in ps;
    var i :| 0 <= i < |ps| && ps[i] == j;
    assert Trail(log, undo)[i] == Lifecycle(tx, Abort);
  }

  lemma {:induction false} LastStart(log: Log, tx: TxId) returns (j: nat)
    requires Started(log, tx)
    ensures j < |log| && log[j] == Lifecycle(tx, Start) && !Started(log[j + 1..], tx)
    decreases |log|
  {
    var n := |log| - 1;
    StartedMore(log, tx);
    if Starts(log[n], tx) {
      j := n;
      NothingLater(log, n);
    } else {
      j := LastStart(log[..n], tx);
      var tail := log[j + 1..];
      assert tail[..|tail| - 1] == log[..n][j + 1..];
      StartedMore(tail, tx);
    }
  }

  lemma {:induction false} AbortsFinish(log: Log, more: Log, ongoing: set<TxId>, tx: TxId)
    requires forall x | x in more :: x.Compensation? || (x.Lifecycle? && x.action == Abort)
    ensures tx in Unfinished(log + more, ongoing) <==> tx in Unfinished(log, ongoing) && Lifecycle(tx, Abort) !in more
    decreases |more|
  {
    if more == [] {
      assert log + more == log;
    } else {
      var rest, x := more[..|more| - 1], more[|more| - 1];
      assert (log + more)[..|log + more| - 1] == log + rest && more == rest + [x];
      assert x in more;
      AbortsFinish(log, rest, ongoing, tx);
    }
  }

  /** After recovery nothing is left to undo: a second recovery redoes what was committed and adds nothing. */
  lemma RecoveryFinishes(log: Log)
    requires forall tx | tx in Losers(log) :: Started(log, tx)
    ensures var again := log + Trail(log, Losers(log));
            Losers(again) == {} && Trail(again, Losers(again)) == []
  {
    hide Trail, Unfinished, Started, Since, Ongoing;
    var losers, more := Losers(log), Trail(log, Losers(log));
    var ps := TrailAnswers(log, losers);
    forall x | x in more ensures x.Compensation? || (x.Lifecycle? && x.action == Abort) {
      var i :| 0 <= i < |more| && more[i] == x;
      assert Answers(more[i], log[ps[i]]);
    }
    assert forall i | 0 <= i < |more| :: more[i] in more;
    AfterMore(log, more);
    forall tx ensures tx !in Losers(log + more) {
      AbortsFinish(After(log), more, Ongoing(log), tx);
      if tx in losers {
        AbortsAll(log, losers, tx);
      }
    }
    assert Losers(log + more) == {};
    NobodyUndone(log + more);
  }

  lemma NobodyUndone(log: Log)
    ensures Trail(log, {}) == []
  {
  }
}
