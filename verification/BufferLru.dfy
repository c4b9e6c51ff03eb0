/** The order of the buffer is the order of last use, and what is evicted is what was not used for longest. */
module BufferLru {
  import opened Wrappers
  import opened BufferPool
  import opened BufferManager
  import Steps = BufferSteps

  function Position(ks: seq<Key>, k: Key): (i: nat)
    ensures i <= |ks| && (k in ks ==> i < |ks| && ks[i] == k)
  {
    if ks == [] || ks[0] == k then 0 else 1 + Position(ks[1..], k)
  }

  lemma {:induction false} PositionIs(ks: seq<Key>, i: nat)
    requires NoDupKeys(ks) && i < |ks|
    ensures Position(ks, ks[i]) == i
  {
    if i > 0 {
      PositionIs(ks[1..], i - 1);
    }
  }

  /** The number of the last request that used the key; below zero for those used before the run, the later
      in the order the later. */
  ghost function LastUse(start: seq<Key>, requests: seq<Steps.Request>, states: seq<Steps.State>, k: Key): int
    requires |states| == |requests| + 1
  {
    if requests == [] then (if k in start then Position(start, k) else 0) - |start| - 1
    else
      var n := |requests| - 1;
      if Uses(states[n], requests[n]) && requests[n].key == k then n
      else LastUse(start, requests[..n], states[..n + 1], k)
  }

  lemma {:induction false} UsedBefore(start: seq<Key>, requests: seq<Steps.Request>, states: seq<Steps.State>, k: Key)
    requires |states| == |requests| + 1
    ensures LastUse(start, requests, states, k) < |requests|
    decreases |requests|
  {
    if requests != [] {
      var n := |requests| - 1;
      UsedBefore(start, requests[..n], states[..n + 1], k);
    }
  }

  ghost predicate ByUse(ks: seq<Key>, start: seq<Key>, requests: seq<Steps.Request>, states: seq<Steps.State>)
    requires |states| == |requests| + 1
  {
    forall i, j | 0 <= i < j < |ks| :: LastUse(start, requests, states, ks[i]) < LastUse(start, requests, states, ks[j])
  }

  // ---- one step ----

  lemma {:induction false} WithoutIsCut(ks: seq<Key>, k: Key)
    requires k in ks
    ensures Without(ks, k) == ks[..Position(ks, k)] + ks[Position(ks, k) + 1..]
  {
    if ks[0] != k {
      WithoutIsCut(ks[1..], k);
      var p := Position(ks[1..], k);
      assert ks[..p + 1] == [ks[0]] + ks[1..][..p];
    }
  }

  /** Taking keys out keeps the order of the others. */
  lemma WithoutByUse(ks: seq<Key>, k: Key, start: seq<Key>, requests: seq<Steps.Request>, states: seq<Steps.State>)
    requires |states| == |requests| + 1 && ByUse(ks, start, requests, states)
    ensures k in ks ==> ByUse(Without(ks, k), start, requests, states)
    ensures ks != [] ==> ByUse(ks[1..], start, requests, states)
  {
    hide LastUse;
    if k in ks {
      WithoutIsCut(ks, k);
    }
  }

  /** A use after all others puts the key last. */
  lemma TouchedByUse(ks: seq<Key>, k: Key, start: seq<Key>, requests: seq<Steps.Request>, states: seq<Steps.State>)
    requires |states| == |requests| + 1 && |requests| > 0 && NoDupKeys(ks)
    requires var n := |requests| - 1; ByUse(ks, start, requests[..n], states[..n + 1]) && Uses(states[n], requests[n]) && requests[n].key == k
    ensures ByUse(Touched(ks, k), start, requests, states)
  {
    hide Uses;
    var n := |requests| - 1;
    var rest := if k in ks then Without(ks, k) else ks;
    WithoutIs(ks, k);
    WithoutByUse(ks, k, start, requests[..n], states[..n + 1]);
    forall i | 0 <= i < |rest|
      ensures LastUse(start, requests, states, rest[i]) == LastUse(start, requests[..n], states[..n + 1], rest[i])
      ensures LastUse(start, requests, states, rest[i]) < n
    {
      assert rest[i] in rest;
      UsedBefore(start, requests[..n], states[..n + 1], rest[i]);
    }
    assert Touched(ks, k) == rest + [k];
  }

  lemma UnusedByUse(ks: seq<Key>, start: seq<Key>, requests: seq<Steps.Request>, states: seq<Steps.State>)
    requires |states| == |requests| + 1 && |requests| > 0
    requires var n := |requests| - 1; ByUse(ks, start, requests[..n], states[..n + 1]) && !Uses(states[n], requests[n])
    ensures ByUse(ks, start, requests, states)
  {
    hide Uses;
    assert forall k :: LastUse(start, requests, states, k) == LastUse(start, requests[..|requests| - 1], states[..|requests|], k);
  }

  lemma {:induction false} StartByUse(ks: seq<Key>, s: Steps.State)
    requires NoDupKeys(ks)
    ensures ByUse(ks, ks, [], [s])
  {
    forall i, j | 0 <= i < j < |ks| ensures LastUse(ks, [], [s], ks[i]) < LastUse(ks, [], [s], ks[j]) {
      PositionIs(ks, i);
      PositionIs(ks, j);
    }
  }

  // ---- runs ----

  lemma RoomByUse(ks: seq<Key>, k: Key, capacity: nat, start: seq<Key>, requests: seq<Steps.Request>, states: seq<Steps.State>)
    requires |states| == |requests| + 1 && ByUse(ks, start, requests, states) && NoDupKeys(ks)
    ensures ByUse(Room(ks, k, capacity), start, requests, states) && NoDupKeys(Room(ks, k, capacity))
  {
    hide LastUse;
    WithoutByUse(ks, k, start, requests, states);
    RoomKeeps(ks, k, capacity);
  }

  /** In every run the buffer's keys stand in the order of their last use. */
  lemma {:induction false} OrderIsByUse(capacity: nat, requests: seq<Steps.Request>, states: seq<Steps.State>, orders: seq<seq<Key>>)
    requires OrdersRun(capacity, requests, states, orders)
    ensures ByUse(orders[|requests|], orders[0], requests, states)
    decreases |requests|
  {
    hide ByUse, Uses, Room, Touched, LastUse;
    assert Lists(orders[0], states[0].buffer);
    if requests == [] {
      StartByUse(orders[0], states[0]);
      assert states == [states[0]];
    } else {
      var n := |requests| - 1;
      var start, ks, r := orders[0], orders[n], requests[n];
      RunPrefix(capacity, requests, states, orders);
      OrderIsByUse(capacity, requests[..n], states[..n + 1], orders[..n + 1]);
      assert OrderStep(capacity, states[n], ks, r, orders[n + 1]) && Lists(ks, states[n].buffer);
      if r.Flush? || !Uses(states[n], r) {
        FlushUsesNothing(states[n], r);
        UnusedByUse(ks, start, requests, states);
        NoneByUse(start, requests, states);
      } else {
        RoomByUse(ks, r.key, capacity, start, requests[..n], states[..n + 1]);
        TouchedByUse(Room(ks, r.key, capacity), r.key, start, requests, states);
      }
    }
  }

  lemma FlushUsesNothing(s: Steps.State, r: Steps.Request)
    ensures r.Flush? ==> !Uses(s, r)
  {
  }

  lemma NoneByUse(start: seq<Key>, requests: seq<Steps.Request>, states: seq<Steps.State>)
    requires |states| == |requests| + 1
    ensures ByUse([], start, requests, states)
  {
  }

  lemma RunPrefix(capacity: nat, requests: seq<Steps.Request>, states: seq<Steps.State>, orders: seq<seq<Key>>)
    requires OrdersRun(capacity, requests, states, orders) && requests != []
    ensures var n := |requests| - 1; OrdersRun(capacity, requests[..n], states[..n + 1], orders[..n + 1])
  {
    hide OrderStep, Lists;
    var n := |requests| - 1;
    forall i | 0 <= i < n ensures OrderStep(capacity, states[i], orders[i], requests[i], orders[i + 1]) {
    }
  }

  lemma {:induction false} RunBegin(capacity: nat, requests: seq<Steps.Request>, states: seq<Steps.State>, orders: seq<seq<Key>>, n: nat)
    requires OrdersRun(capacity, requests, states, orders) && n <= |requests|
    ensures OrdersRun(capacity, requests[..n], states[..n + 1], orders[..n + 1])
  {
    hide OrderStep, Lists;
  }

  /** Only a full buffer gives up a row other than by emptying itself, only to a key it does not hold, and
      then only the row whose last use is earliest. */
  lemma EvictsEarliest(capacity: nat, requests: seq<Steps.Request>, states: seq<Steps.State>, orders: seq<seq<Key>>, n: nat, k: Key)
    requires OrdersRun(capacity, requests, states, orders) && n < |requests| && !requests[n].Flush?
    requires k in states[n].buffer && k !in states[n + 1].buffer
    ensures capacity <= |states[n].buffer| && requests[n].key !in states[n].buffer && requests[n].key in states[n + 1].buffer
    ensures forall other | other in states[n].buffer && other != k ::
              other in states[n + 1].buffer
              && LastUse(orders[0], requests[..n], states[..n + 1], k) < LastUse(orders[0], requests[..n], states[..n + 1], other)
  {
    hide LastUse, Uses, OrderStep, Lists, ByUse;
    RunBegin(capacity, requests, states, orders, n);
    OrderIsByUse(capacity, requests[..n], states[..n + 1], orders[..n + 1]);
    var ks, key, next := orders[n], requests[n].key, orders[n + 1];
    assert Lists(ks, states[n].buffer) && Lists(next, states[n + 1].buffer);
    assert OrderStep(capacity, states[n], ks, requests[n], next);
    FirstGivesWay(capacity, states[n], ks, requests[n], states[n + 1].buffer, next, k);
    forall other | other in states[n].buffer && other != k
      ensures LastUse(orders[0], requests[..n], states[..n + 1], k) < LastUse(orders[0], requests[..n], states[..n + 1], other)
    {
      FirstIsEarliest(ks, other, orders[0], requests[..n], states[..n + 1]);
    }
  }

  lemma FirstGivesWay(capacity: nat, s: Steps.State, ks: seq<Key>, r: Steps.Request, b': Buffer, next: seq<Key>, k: Key)
    requires OrderStep(capacity, s, ks, r, next) && !r.Flush? && Lists(ks, s.buffer) && Lists(next, b') && k in s.buffer && k !in b'
    ensures capacity <= |s.buffer| && r.key !in s.buffer && r.key in b' && ks != [] && ks[0] == k
    ensures forall other | other in ks :: other in s.buffer && (other != k ==> other in b')
    ensures forall other | other in s.buffer :: other in ks
  {
    hide Uses, Touched, NoDupKeys;
    RoomTaken(s.buffer, ks, r.key, capacity);
    RoomKeeps(ks, r.key, capacity);
    TouchedHas(Room(ks, r.key, capacity), r.key);
    FirstKey(ks);
  }

  lemma FirstIsEarliest(ks: seq<Key>, other: Key, start: seq<Key>, requests: seq<Steps.Request>, states: seq<Steps.State>)
    requires |states| == |requests| + 1 && ByUse(ks, start, requests, states) && other in ks && other != ks[0]
    ensures LastUse(start, requests, states, ks[0]) < LastUse(start, requests, states, other)
  {
    hide LastUse;
    var i :| 0 <= i < |ks| && ks[i] == other;
  }

  lemma TouchedHas(ks: seq<Key>, k: Key)
    requires NoDupKeys(ks)
    ensures forall x :: x in Touched(ks, k) <==> x in ks || x == k
  {
    WithoutIs(ks, k);
  }
}
