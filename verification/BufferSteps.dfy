/** What requests to the buffer manager do to disk, buffer and log, and what runs of them make of the log. */
module BufferSteps {
  import opened Wrappers
  import opened BufferPool
  import opened WriteAheadLog

  datatype State = State(disk: Disk, buffer: Buffer, log: Log)

  datatype Request = Write(tx: TxId, key: Key, row: Row) | Delete(tx: TxId, key: Key, row: Row) | Read(key: Key) | Flush

  /** Rows are given with their own key, and written to tables there are. */
  predicate Sensible(r: Request, d: Disk) {
    && (r.Write? ==> r.row.pk == r.key.pk && r.key.table in d)
    && (r.Delete? ==> r.row.pk == r.key.pk)
  }

  function See(s: State, k: Key): Option<Row> {
    Lookup(s.disk, s.buffer, k)
  }

  /** A deleted row in the buffer hides what the disk has, and what is written over it. */
  predicate Hidden(s: State, k: Key) {
    k in s.buffer && s.buffer[k].deleted
  }

  function Entries(s: State, r: Request): Log {
    match r
    case Write(tx, key, row) => [Operation(tx, key, if Hidden(s, key) then s.buffer[key].data else See(s, key), Some(row))]
    case Delete(tx, key, row) => if key in s.buffer || See(s, key).Some? then [Operation(tx, key, Some(row), None)] else []
    case Read(_) => []
    case Flush => []
  }

  function SeenAfter(s: State, r: Request, k: Key): Option<Row> {
    match r
    case Write(_, key, row) => if k == key && !Hidden(s, k) then Some(row) else See(s, k)
    case Delete(_, key, _) => if k == key then None else See(s, k)
    case Read(_) => See(s, k)
    case Flush => See(s, k)
  }

  /** The disk stays as it was or takes over what one saw: that is what flushes, if there are any, leave. */
  ghost predicate DiskFollows(s: State, d': Disk) {
    && d'.Keys == s.disk.Keys
    && forall k :: OnDisk(d', k) == OnDisk(s.disk, k) || OnDisk(d', k) == See(s, k)
  }

  ghost predicate Step(s: State, r: Request, s': State) {
    && Good(s'.disk, s'.buffer) && DiskFollows(s, s'.disk)
    && s'.log == s.log + Entries(s, r)
    && (forall k :: See(s', k) == SeenAfter(s, r, k))
    && (forall k :: Hidden(s', k) ==> Hidden(s, k) || (r.Delete? && r.key == k))
  }

  ghost predicate IsRun(requests: seq<Request>, states: seq<State>) {
    && |states| == |requests| + 1 && Good(states[0].disk, states[0].buffer)
    && forall i | 0 <= i < |requests| :: Sensible(requests[i], states[0].disk) && Step(states[i], requests[i], states[i + 1])
  }

  lemma FollowsOn(s: State, s': State, d: Disk)
    requires DiskFollows(s, s'.disk) && DiskFollows(s', d) && forall k :: See(s', k) == See(s, k)
    ensures DiskFollows(s, d)
  {
  }

  // ---- when the log tells what one sees ----

  /** The write does not meet a deletion in the buffer; the deletion is given the row one sees, or does nothing. */
  predicate Clean(s: State, r: Request) {
    match r
    case Write(_, key, _) => !Hidden(s, key)
    case Delete(_, key, row) => See(s, key) == Some(row) || (key !in s.buffer && See(s, key).None?)
    case Read(_) => true
    case Flush => true
  }

  ghost predicate AllClean(requests: seq<Request>, states: seq<State>)
    requires |states| == |requests| + 1
  {
    forall i | 0 <= i < |requests| :: Clean(states[i], requests[i])
  }

  /** The last request logged for the key is a write that met a deletion. */
  predicate Lost(requests: seq<Request>, states: seq<State>, k: Key)
    requires |states| == |requests| + 1
  {
    if requests == [] then false
    else
      var n := |requests| - 1;
      match requests[n]
      case Write(_, key, _) => if key == k then Hidden(states[n], k) else Lost(requests[..n], states[..n + 1], k)
      case Delete(_, key, _) => !(key == k && Entries(states[n], requests[n]) != []) && Lost(requests[..n], states[..n + 1], k)
      case Read(_) => Lost(requests[..n], states[..n + 1], k)
      case Flush => Lost(requests[..n], states[..n + 1], k)
  }

  predicate Deleted(requests: seq<Request>, k: Key) {
    exists i | 0 <= i < |requests| :: requests[i].Delete? && requests[i].key == k
  }

  /** What a caller can see without knowing the buffer: the key is written after it was deleted. */
  predicate WrittenOver(requests: seq<Request>, k: Key, hidden: bool) {
    exists i | 0 <= i < |requests| :: requests[i].Write? && requests[i].key == k && (hidden || Deleted(requests[..i], k))
  }

  /** The row one should see after the requests. */
  function Expected(requests: seq<Request>, k: Key, was: Option<Row>): Option<Row> {
    if requests == [] then was
    else
      var r := requests[|requests| - 1];
      if r.Write? && r.key == k then Some(r.row)
      else if r.Delete? && r.key == k then None
      else Expected(requests[..|requests| - 1], k, was)
  }

  /** No key is written after it was deleted, and deletions are given the row one should see. */
  ghost predicate Careful(requests: seq<Request>, s: State) {
    && (forall k :: !WrittenOver(requests, k, Hidden(s, k)))
    && forall i | 0 <= i < |requests| && requests[i].Delete? ::
         Expected(requests[..i], requests[i].key, See(s, requests[i].key)) == Some(requests[i].row)
  }

  lemma RunPrefix(requests: seq<Request>, states: seq<State>)
    requires IsRun(requests, states) && requests != []
    ensures IsRun(requests[..|requests| - 1], states[..|requests|])
    ensures var n := |requests| - 1; Step(states[n], requests[n], states[n + 1]) && Sensible(requests[n], states[0].disk)
    ensures AllClean(requests, states)
            <==> AllClean(requests[..|requests| - 1], states[..|requests|]) && Clean(states[|requests| - 1], requests[|requests| - 1])
  {
    hide Step, Clean, Sensible;
    var rs, ss := requests[..|requests| - 1], states[..|requests|];
    assert forall i | 0 <= i < |rs| :: rs[i] == requests[i];
    assert forall i | 0 <= i < |ss| :: ss[i] == states[i];
    if AllClean(rs, ss) && Clean(states[|requests| - 1], requests[|requests| - 1]) {
      forall i | 0 <= i < |requests| ensures Clean(states[i], requests[i]) {
        assert i < |rs| ==> Clean(ss[i], rs[i]);
      }
    }
    if AllClean(requests, states) {
      forall i | 0 <= i < |rs| ensures Clean(ss[i], rs[i]) {
        assert Clean(states[i], requests[i]);
      }
    }
  }

  /** The log only grows, tables stay, and no run leaves the buffer in bad order. */
  lemma {:induction false} RunGrows(requests: seq<Request>, states: seq<State>)
    requires IsRun(requests, states)
    ensures states[0].log <= states[|requests|].log && states[|requests|].disk.Keys == states[0].disk.Keys
    ensures Good(states[|requests|].disk, states[|requests|].buffer)
  {
    if requests != [] {
      RunPrefix(requests, states);
      RunGrows(requests[..|requests| - 1], states[..|requests|]);
    }
  }

  /** What a run has logged. */
  function Written(requests: seq<Request>, states: seq<State>): Log
    requires |states| == |requests| + 1
  {
    if |states[0].log| <= |states[|requests|].log| then states[|requests|].log[|states[0].log|..] else []
  }

  lemma WrittenMore(requests: seq<Request>, states: seq<State>)
    requires IsRun(requests, states) && requests != []
    ensures var n := |requests| - 1;
            Written(requests, states) == Written(requests[..n], states[..n + 1]) + Entries(states[n], requests[n])
  {
    hide Good, DiskFollows;
    RunPrefix(requests, states);
    RunGrows(requests[..|requests| - 1], states[..|requests|]);
  }

  /** Replaying what was logged gives what one sees, exactly if the key is not lost. */
  lemma {:induction false} ReplayIsSeenIff(requests: seq<Request>, states: seq<State>, k: Key)
    requires IsRun(requests, states)
    ensures Replay(Written(requests, states), k, See(states[0], k)) == See(states[|requests|], k) <==> !Lost(requests, states, k)
  {
    hide Good, DiskFollows, Lookup;
    if requests != [] {
      var n := |requests| - 1;
      RunPrefix(requests, states);
      ReplayIsSeenIff(requests[..n], states[..n + 1], k);
      WrittenMore(requests, states);
      var was, more := Written(requests[..n], states[..n + 1]), Entries(states[n], requests[n]);
      if more == [] {
        assert was + more == was;
        SilentlySeen(states[n], requests[n], states[n + 1], k);
      } else {
        ReplayMore(was, more[0], k, See(states[0], k));
        HiddenUnseen(states[n], k);
      }
    }
  }

  lemma SilentlySeen(s: State, r: Request, s': State, k: Key)
    requires Step(s, r, s') && Entries(s, r) == []
    ensures See(s', k) == See(s, k)
  {
  }

  lemma HiddenUnseen(s: State, k: Key)
    ensures Hidden(s, k) ==> See(s, k) == None
  {
  }

  lemma DeletedMore(requests: seq<Request>, k: Key)
    requires requests != []
    ensures var r := requests[|requests| - 1];
            Deleted(requests, k) <==> (Deleted(requests[..|requests| - 1], k) || (r.Delete? && r.key == k))
  {
    var rs := requests[..|requests| - 1];
    assert forall i | 0 <= i < |rs| :: rs[i] == requests[i];
    if Deleted(rs, k) {
      var i :| 0 <= i < |rs| && rs[i].Delete? && rs[i].key == k;
      assert requests[i].Delete?;
    }
  }

  /** Rows are hidden by deletions of the run, or were before it. */
  lemma {:induction false} HiddenByDeletion(requests: seq<Request>, states: seq<State>, k: Key)
    requires IsRun(requests, states) && Hidden(states[|requests|], k)
    ensures Hidden(states[0], k) || Deleted(requests, k)
  {
    hide Good, DiskFollows, Lookup;
    if requests != [] {
      var n := |requests| - 1;
      RunPrefix(requests, states);
      DeletedMore(requests, k);
      if Hidden(states[n], k) {
        HiddenByDeletion(requests[..n], states[..n + 1], k);
      }
    }
  }

  lemma WrittenOverMore(requests: seq<Request>, k: Key, hidden: bool)
    requires requests != []
    ensures var n := |requests| - 1;
            WrittenOver(requests, k, hidden) <==>
              WrittenOver(requests[..n], k, hidden) || (requests[n].Write? && requests[n].key == k && (hidden || Deleted(requests[..n], k)))
  {
    var n := |requests| - 1;
    var rs := requests[..n];
    assert forall i | 0 <= i < n :: rs[i] == requests[i] && rs[..i] == requests[..i];
    if WrittenOver(rs, k, hidden) {
      var i :| 0 <= i < n && rs[i].Write? && rs[i].key == k && (hidden || Deleted(rs[..i], k));
      assert requests[i].Write? && requests[..i] == rs[..i];
    }
    if WrittenOver(requests, k, hidden) {
      var i :| 0 <= i <= n && requests[i].Write? && requests[i].key == k && (hidden || Deleted(requests[..i], k));
      assert i < n ==> rs[i].Write? && requests[..i] == rs[..i];
    }
  }

  /** Only a key written after its deletion, or while hidden from the start, is ever lost. */
  lemma {:induction false} LostIsWrittenOver(requests: seq<Request>, states: seq<State>, k: Key)
    requires IsRun(requests, states) && Lost(requests, states, k)
    ensures WrittenOver(requests, k, Hidden(states[0], k))
  {
    hide Good, DiskFollows, Lookup, WrittenOver;
    var n := |requests| - 1;
    RunPrefix(requests, states);
    WrittenOverMore(requests, k, Hidden(states[0], k));
    if requests[n].Write? && requests[n].key == k {
      HiddenByDeletion(requests[..n], states[..n + 1], k);
    } else {
      LostIsWrittenOver(requests[..n], states[..n + 1], k);
    }
  }

  lemma {:induction false} CleanLosesNothing(requests: seq<Request>, states: seq<State>, k: Key)
    requires IsRun(requests, states) && AllClean(requests, states)
    ensures !Lost(requests, states, k)
  {
    hide Good, DiskFollows, Lookup, Step, AllClean;
    if requests != [] {
      RunPrefix(requests, states);
      CleanLosesNothing(requests[..|requests| - 1], states[..|requests|], k);
    }
  }

  /** The before-images are what one saw exactly if no write met a deletion in the buffer, and every
      deletion was given the row one saw. */
  lemma {:induction false} FaithfulIff(requests: seq<Request>, states: seq<State>)
    requires IsRun(requests, states)
    ensures Faithful(Written(requests, states), Seen(states[0].disk, states[0].buffer)) <==> AllClean(requests, states)
  {
    hide Good, DiskFollows, AllClean, Faithful, Replay, Written, Lookup, Step;
    var base := Seen(states[0].disk, states[0].buffer);
    if requests == [] {
      NothingWritten(requests, states);
    } else {
      var n := |requests| - 1;
      RunPrefix(requests, states);
      FaithfulIff(requests[..n], states[..n + 1]);
      RunGrows(requests[..n], states[..n + 1]);
      WrittenMore(requests, states);
      var was, r := Written(requests[..n], states[..n + 1]), requests[n];
      EntriesClean(states[n], r);
      if Entries(states[n], r) == [] {
        assert was + [] == was;
      } else {
        var e := Entries(states[n], r)[0];
        FaithfulMore(was, e, base);
        if AllClean(requests[..n], states[..n + 1]) {
          CleanLosesNothing(requests[..n], states[..n + 1], e.key);
          ReplayIsSeenIff(requests[..n], states[..n + 1], e.key);
          assert base(e.key) == See(states[0], e.key);
        }
      }
    }
  }

  lemma NothingWritten(requests: seq<Request>, states: seq<State>)
    requires IsRun(requests, states) && requests == []
    ensures Written(requests, states) == [] && AllClean(requests, states)
    ensures Faithful([], Seen(states[0].disk, states[0].buffer)) && ProperLog([], states[0].disk)
  {
  }

  /** What is logged has the row one saw for its before-image exactly if the request is clean. */
  lemma EntriesClean(s: State, r: Request)
    requires Good(s.disk, s.buffer)
    ensures var more := Entries(s, r);
            if more == [] then Clean(s, r)
            else |more| == 1 && Effective(more[0]) && (Clean(s, r) <==> more[0].before == See(s, more[0].key))
  {
    if r.Write? && r.key in s.buffer {
      assert GoodRow(s.disk, s.buffer, r.key);
    }
  }

  lemma EntriesProper(s: State, r: Request, d: Disk)
    requires Good(s.disk, s.buffer) && Sensible(r, s.disk) && d.Keys == s.disk.Keys
    ensures ProperLog(Entries(s, r), d)
  {
    var more := Entries(s, r);
    if more != [] {
      var k := more[0].key;
      assert k in s.buffer ==> GoodRow(s.disk, s.buffer, k);
    }
  }

  /** Every run logs images under their own keys. */
  lemma {:induction false} RunIsProper(requests: seq<Request>, states: seq<State>)
    requires IsRun(requests, states)
    ensures ProperLog(Written(requests, states), states[0].disk)
  {
    hide Good, DiskFollows, AllClean, Written, Step, Clean, Entries, Proper;
    if requests == [] {
      NothingWritten(requests, states);
    } else {
      var n := |requests| - 1;
      RunPrefix(requests, states);
      RunGrows(requests[..n], states[..n + 1]);
      RunIsProper(requests[..n], states[..n + 1]);
      WrittenMore(requests, states);
      SameSensible(requests[n], states[0].disk, states[n].disk);
      EntriesProper(states[n], requests[n], states[0].disk);
    }
  }

  lemma SameSensible(r: Request, d: Disk, d': Disk)
    requires Sensible(r, d) && d.Keys == d'.Keys
    ensures Sensible(r, d')
  {
  }

  /** The caller's care is enough: then nothing is lost and every before-image is right. */
  lemma {:induction false} CarefulIsClean(requests: seq<Request>, states: seq<State>)
    requires IsRun(requests, states) && Careful(requests, states[0])
    ensures AllClean(requests, states)
    ensures forall k :: See(states[|requests|], k) == Expected(requests, k, See(states[0], k))
  {
    hide Good, DiskFollows, AllClean, Lookup, WrittenOver, Deleted;
    if requests == [] {
      NothingWritten(requests, states);
    } else {
      var n := |requests| - 1;
      RunPrefix(requests, states);
      CarefulBefore(requests, states[0]);
      CarefulIsClean(requests[..n], states[..n + 1]);
      if requests[n].Write? && Hidden(states[n], requests[n].key) {
        HiddenByDeletion(requests[..n], states[..n + 1], requests[n].key);
        WrittenOverMore(requests, requests[n].key, Hidden(states[0], requests[n].key));
      }
    }
  }

  lemma CarefulBefore(requests: seq<Request>, s: State)
    requires requests != [] && Careful(requests, s)
    ensures Careful(requests[..|requests| - 1], s)
  {
    hide WrittenOver, Lookup;
    var rs := requests[..|requests| - 1];
    forall k ensures !WrittenOver(rs, k, Hidden(s, k)) {
      WrittenOverMore(requests, k, Hidden(s, k));
    }
    assert forall i | 0 <= i < |rs| :: rs[i] == requests[i] && rs[..i] == requests[..i];
  }

  lemma NoRun(s: State)
    requires Good(s.disk, s.buffer)
    ensures IsRun([], [s]) && AllClean([], [s]) && forall k :: !Lost([], [s], k)
  {
  }

  lemma StillSensible(requests: seq<Request>, before: seq<Request>, states: seq<State>, i: nat)
    requires IsRun(before, states) && i < |requests| && Sensible(requests[i], states[0].disk)
    ensures Sensible(requests[i], states[|before|].disk)
  {
    RunGrows(before, states);
  }

  /** One more step. */
  lemma RunMore(requests: seq<Request>, states: seq<State>, r: Request, s': State)
    requires IsRun(requests, states) && Step(states[|requests|], r, s') && Sensible(r, states[0].disk)
    ensures IsRun(requests + [r], states + [s'])
    ensures AllClean(requests + [r], states + [s']) <==> (AllClean(requests, states) && Clean(states[|requests|], r))
    ensures forall k :: Lost(requests + [r], states + [s'], k) <==>
              if r.Write? && r.key == k then !Clean(states[|requests|], r)
              else !(r.Delete? && r.key == k && Entries(states[|requests|], r) != []) && Lost(requests, states, k)
  {
    hide Step, Good, Sensible, Entries;
    var rs, ss, n := requests + [r], states + [s'], |requests|;
    assert rs[..n] == requests && ss[..n + 1] == states && rs[n] == r && ss[n] == states[n] && ss[n + 1] == s';
    forall i | 0 <= i < |rs| ensures Sensible(rs[i], ss[0].disk) && Step(ss[i], rs[i], ss[i + 1]) {
      if i < n {
        assert Step(states[i], requests[i], states[i + 1]);
      }
    }
    RunPrefix(rs, ss);
  }

  /** What the log of a run tells. */
  lemma RunTells(requests: seq<Request>, states: seq<State>)
    requires |states| == |requests| + 1 && IsRun(requests, states)
    ensures var s, s' := states[0], states[|requests|];
            && s.log <= s'.log && s'.disk.Keys == s.disk.Keys
            && (forall k :: Replay(s'.log[|s.log|..], k, See(s, k)) == See(s', k) <==> !Lost(requests, states, k))
            && (forall k | Lost(requests, states, k) :: WrittenOver(requests, k, Hidden(s, k)))
            && (AllClean(requests, states) <==> Faithful(s'.log[|s.log|..], Seen(s.disk, s.buffer)))
            && ProperLog(s'.log[|s.log|..], s'.disk)
            && (AllClean(requests, states) ==> forall k :: !Lost(requests, states, k))
            && (Careful(requests, s) ==> AllClean(requests, states))
  {
    hide *;
    var s, s' := states[0], states[|requests|];
    RunGrows(requests, states);
    WrittenIs(requests, states);
    forall k ensures Replay(s'.log[|s.log|..], k, See(s, k)) == See(s', k) <==> !Lost(requests, states, k) {
      ReplayIsSeenIff(requests, states, k);
    }
    forall k | Lost(requests, states, k) ensures WrittenOver(requests, k, Hidden(s, k)) {
      LostIsWrittenOver(requests, states, k);
    }
    FaithfulIff(requests, states);
    RunIsProper(requests, states);
    SameTables(Written(requests, states), s.disk, s'.disk);
    if AllClean(requests, states) {
      forall k ensures !Lost(requests, states, k) {
        CleanLosesNothing(requests, states, k);
      }
    }
    if Careful(requests, s) {
      CarefulIsClean(requests, states);
    }
  }

  lemma WrittenIs(requests: seq<Request>, states: seq<State>)
    requires IsRun(requests, states) && states[0].log <= states[|requests|].log
    ensures Written(requests, states) == states[|requests|].log[|states[0].log|..]
  {
  }

  // ---- a write over a deletion ----

  const HELD := State(map["t" := [OLD]], map[], [])
  const DELETED := State(map["t" := [OLD]], map[TEN := Buffered(Some(OLD), true, true)], [Operation(1, TEN, Some(OLD), None)])
  const OVERWRITTEN := State(map["t" := [OLD]], map[TEN := Buffered(Some(NEW), true, true)],
                             [Operation(1, TEN, Some(OLD), None), Operation(1, TEN, Some(OLD), Some(NEW))])

  /** A row deleted and written again: the log says it is there, and one does not see it. */
  lemma WriteIsLost() returns (requests: seq<Request>, states: seq<State>)
    ensures IsRun(requests, states) && requests == [Delete(1, TEN, OLD), Write(1, TEN, NEW)] && states[0].buffer == map[]
    ensures Lost(requests, states, TEN) && See(states[2], TEN) == None
    ensures Replay(Written(requests, states), TEN, See(states[0], TEN)) == Some(NEW)
  {
    requests, states := [Delete(1, TEN, OLD), Write(1, TEN, NEW)], [HELD, DELETED, OVERWRITTEN];
    assert Step(HELD, requests[0], DELETED) && Step(DELETED, requests[1], OVERWRITTEN);
    assert Written(requests, states) == [Operation(1, TEN, Some(OLD), None)] + [Operation(1, TEN, Some(OLD), Some(NEW))];
    ReplayMore([Operation(1, TEN, Some(OLD), None)], Operation(1, TEN, Some(OLD), Some(NEW)), TEN, Some(OLD));
  }
}
