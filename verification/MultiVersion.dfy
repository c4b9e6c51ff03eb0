/** Multi-version concurrency control: the chains of versions, and what each timestamp sees of them. */
module MultiVersion {
  import opened Wrappers

  // The expiry of a live version; every transaction identifier is below it.
  const LIVE := 999999

  datatype Version = Version(data: int, created: int, expired: int)

  // ---- chains ----

  /** Each version ends where the next begins, and only the last is live. */
  ghost predicate Chain(vs: seq<Version>) {
    && vs != [] && vs[|vs| - 1].expired == LIVE
    && (forall i | 0 <= i < |vs| - 1 :: vs[i].expired == vs[i + 1].created)
    && (forall i | 0 <= i < |vs| :: vs[i].created <= vs[i].expired && vs[i].created < LIVE)
  }

  predicate Covers(v: Version, ts: int) {
    v.created <= ts < v.expired
  }

  /** What the backward search of a read finds. */
  function Seen(vs: seq<Version>, ts: int): Option<Version> {
    if vs == [] then None
    else if Covers(vs[|vs| - 1], ts) then Some(vs[|vs| - 1])
    else Seen(vs[..|vs| - 1], ts)
  }

  /** A write: the latest live version expires, and a new one follows. */
  function Expire(vs: seq<Version>, ts: int): (r: seq<Version>)
    ensures |r| == |vs|
  {
    if vs == [] then []
    else
      var n := |vs| - 1;
      if vs[n].expired == LIVE then vs[..n] + [vs[n].(expired := ts)] else Expire(vs[..n], ts) + [vs[n]]
  }

  function Written(vs: seq<Version>, data: int, ts: int): seq<Version> {
    Expire(vs, ts) + [Version(data, ts, LIVE)]
  }

  predicate MayWrite(vs: seq<Version>, ts: int) {
    forall i | 0 <= i < |vs| :: vs[i].created <= ts
  }

  predicate Needed(v: Version, oldest: int) {
    v.expired == LIVE || v.expired >= oldest
  }

  function Collected(vs: seq<Version>, oldest: int): seq<Version> {
    if vs == [] then []
    else
      var rest := Collected(vs[..|vs| - 1], oldest);
      if Needed(vs[|vs| - 1], oldest) then rest + [vs[|vs| - 1]] else rest
  }

  // ---- what each timestamp sees ----

  lemma {:induction false} ChainRises(vs: seq<Version>, i: nat, j: nat)
    requires Chain(vs) && i < j < |vs|
    ensures vs[i].expired <= vs[j].created
    decreases j
  {
    if j > i + 1 {
      ChainRises(vs, i, j - 1);
    }
  }

  /** From the first version on, exactly one version covers a timestamp, and a read finds it. */
  lemma ExactlyOneVisible(vs: seq<Version>, ts: int)
    requires Chain(vs) && ts < LIVE
    ensures Seen(vs, ts).Some? <==> vs[0].created <= ts
    ensures vs[0].created <= ts ==> exists i :: 0 <= i < |vs| && Covers(vs[i], ts) && Seen(vs, ts) == Some(vs[i])
    ensures forall i, j | 0 <= i < j < |vs| :: !(Covers(vs[i], ts) && Covers(vs[j], ts))
  {
    forall i, j | 0 <= i < j < |vs| ensures !(Covers(vs[i], ts) && Covers(vs[j], ts)) {
      ChainRises(vs, i, j);
    }
    if vs[0].created <= ts {
      var i := SomeCovers(vs, ts);
      SeenIs(vs, i, ts);
    } else {
      forall i | 0 <= i < |vs| ensures !Covers(vs[i], ts) {
        if i > 0 {
          ChainRises(vs, 0, i);
        }
      }
      SeesNothing(vs, ts);
    }
  }

  lemma {:induction false} SomeCovers(vs: seq<Version>, ts: int) returns (i: nat)
    requires Chain(vs) && vs[0].created <= ts < LIVE
    ensures i < |vs| && Covers(vs[i], ts)
  {
    i := 0;
    while !Covers(vs[i], ts)
      invariant i < |vs| && vs[i].created <= ts
      decreases |vs| - i
    {
      i := i + 1;
    }
  }

  lemma {:induction false} SeenIs(vs: seq<Version>, i: nat, ts: int)
    requires i < |vs| && Covers(vs[i], ts) && forall j | i < j < |vs| :: !Covers(vs[j], ts)
    ensures Seen(vs, ts) == Some(vs[i])
    decreases |vs|
  {
    if i < |vs| - 1 {
      SeenIs(vs[..|vs| - 1], i, ts);
    }
  }

  lemma {:induction false} SeesNothing(vs: seq<Version>, ts: int)
    requires forall i | 0 <= i < |vs| :: !Covers(vs[i], ts)
    ensures Seen(vs, ts).None?
  {
    if vs != [] {
      SeesNothing(vs[..|vs| - 1], ts);
    }
  }

  // ---- a write changes nothing below it ----

  lemma WrittenChain(vs: seq<Version>, data: int, ts: int)
    requires (vs == [] || Chain(vs)) && MayWrite(vs, ts) && ts < LIVE
    ensures Chain(Written(vs, data, ts))
    ensures vs != [] ==> Written(vs, data, ts) == vs[..|vs| - 1] + [vs[|vs| - 1].(expired := ts), Version(data, ts, LIVE)]
  {
    if vs != [] {
      var n := |vs| - 1;
      assert Expire(vs, ts) == vs[..n] + [vs[n].(expired := ts)];
    }
  }

  lemma SeenBelow(vs: seq<Version>, v: Version, ts: int)
    requires !Covers(v, ts)
    ensures Seen(vs + [v], ts) == Seen(vs, ts)
  {
    assert (vs + [v])[..|vs|] == vs;
  }

  /** A granted write shows from its timestamp on; below, every read sees the same data as before. */
  lemma WriteIsLocal(vs: seq<Version>, data: int, ts: int, at: int)
    requires (vs == [] || Chain(vs)) && MayWrite(vs, ts) && ts < LIVE && at < LIVE
    ensures at >= ts ==> Seen(Written(vs, data, ts), at) == Some(Version(data, ts, LIVE))
    ensures at < ts ==> (Seen(Written(vs, data, ts), at).Some? <==> Seen(vs, at).Some?)
    ensures at < ts && Seen(vs, at).Some? ==>
              Seen(Written(vs, data, ts), at).value.data == Seen(vs, at).value.data
              && Seen(Written(vs, data, ts), at).value.created == Seen(vs, at).value.created
  {
    WrittenChain(vs, data, ts);
    var now := Version(data, ts, LIVE);
    if vs == [] {
      assert Written(vs, data, ts) == [now] && [now][..0] == [];
    } else if at >= ts {
      assert Written(vs, data, ts)[|vs|] == now;
    } else {
      WrittenBelow(vs, data, ts, at);
    }
  }

  lemma WrittenBelow(vs: seq<Version>, data: int, ts: int, at: int)
    requires vs != [] && Chain(vs) && MayWrite(vs, ts) && at < ts < LIVE
    ensures Seen(Written(vs, data, ts), at).Some? <==> Seen(vs, at).Some?
    ensures Seen(vs, at).Some? ==>
              Seen(Written(vs, data, ts), at).value.data == Seen(vs, at).value.data
              && Seen(Written(vs, data, ts), at).value.created == Seen(vs, at).value.created
  {
    var n, now := |vs| - 1, Version(data, ts, LIVE);
    var last := vs[n].(expired := ts);
    assert Written(vs, data, ts) == (vs[..n] + [last]) + [now];
    SeenBelow(vs[..n] + [last], now, at);
    if Covers(last, at) {
      assert (vs[..n] + [last])[n] == last;
    } else {
      SeenBelow(vs[..n], last, at);
    }
  }

  // ---- garbage collection ----

  /** What is kept is the end of the chain, from the first version not expired too long. */
  lemma {:induction false} CollectedIsSuffix(vs: seq<Version>, oldest: int) returns (k: nat)
    requires Chain(vs)
    ensures k < |vs| && Collected(vs, oldest) == vs[k..]
    ensures forall i | 0 <= i < k :: vs[i].expired < oldest && vs[i].expired != LIVE
    ensures forall i | k <= i < |vs| :: vs[i].expired >= oldest || vs[i].expired == LIVE
  {
    k := 0;
    while k < |vs| - 1 && !Needed(vs[k], oldest)
      invariant k < |vs| && forall i | 0 <= i < k :: !Needed(vs[i], oldest)
      decreases |vs| - k
    {
      k := k + 1;
    }
    forall i | k <= i < |vs| ensures Needed(vs[i], oldest) {
      if k < i < |vs| - 1 {
        ChainRises(vs, k, i);
      }
    }
    Filtered(vs, k, |vs|, oldest);
    assert vs[..|vs|] == vs;
  }

  lemma {:induction false} Filtered(vs: seq<Version>, k: nat, n: nat, oldest: int)
    requires k <= |vs| && n <= |vs|
    requires forall i | 0 <= i < k :: !Needed(vs[i], oldest)
    requires forall i | k <= i < |vs| :: Needed(vs[i], oldest)
    ensures Collected(vs[..n], oldest) == if n <= k then [] else vs[k..n]
    decreases n
  {
    hide Needed;
    if n > 0 {
      Filtered(vs, k, n - 1, oldest);
      assert vs[..n][..n - 1] == vs[..n - 1] && vs[..n][n - 1] == vs[n - 1];
      if n > k {
        assert vs[k..n] == vs[k..n - 1] + [vs[n - 1]];
      }
    }
  }

  lemma {:induction false} SuffixSees(vs: seq<Version>, k: nat, ts: int)
    requires k <= |vs| && forall i | 0 <= i < k :: !Covers(vs[i], ts)
    ensures Seen(vs[k..], ts) == Seen(vs, ts)
    decreases |vs|
  {
    if k == |vs| {
      SeesNothing(vs, ts);
    } else {
      var n := |vs| - 1;
      assert vs[k..][|vs[k..]| - 1] == vs[n] && vs[k..][..|vs[k..]| - 1] == vs[..n][k..];
      SuffixSees(vs[..n], k, ts);
    }
  }

  /** Collection keeps the chain a chain, and what every transaction not older than the bound sees. */
  lemma CollectionKeepsSeen(vs: seq<Version>, oldest: int, ts: int)
    requires Chain(vs) && oldest <= ts < LIVE
    ensures Chain(Collected(vs, oldest)) && Seen(Collected(vs, oldest), ts) == Seen(vs, ts)
  {
    hide Seen, Collected;
    var k := CollectedIsSuffix(vs, oldest);
    SuffixSees(vs, k, ts);
  }

  /** What is left is the end of what was there: the versions that are live or did not expire before every
      active transaction, and no other. */
  ghost predicate Trimmed(was: seq<Version>, now: seq<Version>, active: set<int>) {
    exists k: nat :: k <= |was| && now == was[k..] && CutAt(was, k, active)
  }

  ghost predicate CutAt(was: seq<Version>, k: nat, active: set<int>)
    requires k <= |was|
  {
    && (forall i | 0 <= i < k :: was[i].expired != LIVE && forall t | t in active :: was[i].expired < t)
    && (forall i | k <= i < |was| :: was[i].expired == LIVE || exists t | t in active :: t <= was[i].expired)
  }

  lemma CollectedIsTrimmed(vs: seq<Version>, oldest: int, active: set<int>)
    requires Chain(vs) && oldest in active && forall t | t in active :: oldest <= t
    ensures Trimmed(vs, Collected(vs, oldest), active)
  {
    hide Collected;
    var k := CollectedIsSuffix(vs, oldest);
    assert CutAt(vs, k, active);
  }

  lemma ChainNotEmpty(vs: seq<Version>)
    requires Chain(vs)
    ensures vs != []
  {
  }

  lemma CollectionKeepsChain(vs: seq<Version>, oldest: int)
    requires Chain(vs)
    ensures Chain(Collected(vs, oldest))
  {
    var k := CollectedIsSuffix(vs, oldest);
  }

  // ---- runs ----

  datatype Request = Read(obj: string, tx: int) | Write(obj: string, data: int, tx: int) | End(active: set<int>)

  ghost predicate Granted(requests: seq<Request>, answers: seq<bool>, i: nat, obj: string)
    requires |answers| == |requests|
  {
    i < |requests| && requests[i].Write? && requests[i].obj == obj && answers[i]
  }

  /** The granted writes of an object, in order: what was written, and by whom. */
  ghost function Writes(requests: seq<Request>, answers: seq<bool>, obj: string): seq<(int, int)>
    requires |answers| == |requests|
  {
    if requests == [] then []
    else
      var n := |requests| - 1;
      Writes(requests[..n], answers[..n], obj)
      + if Granted(requests, answers, n, obj) then [(requests[n].data, requests[n].tx)] else []
  }

  /** A write is refused exactly if one of a later transaction to the same object was granted before. */
  ghost predicate FirstCommitterWins(requests: seq<Request>, answers: seq<bool>)
    requires |answers| == |requests|
  {
    forall i: nat | i < |requests| && requests[i].Write? ::
      answers[i] <==> forall j: nat | j < i && Granted(requests, answers, j, requests[i].obj) :: requests[j].tx <= requests[i].tx
  }

  /** The versions are the last of the granted writes, all in the order of their transactions. */
  ghost predicate Holds(vs: seq<Version>, writes: seq<(int, int)>) {
    && |vs| <= |writes| && (vs == [] ==> writes == [])
    && (forall i | 0 <= i < |vs| :: (vs[i].data, vs[i].created) == writes[|writes| - |vs| + i])
    && (forall i, j | 0 <= i < j < |writes| :: writes[i].1 <= writes[j].1)
  }

  /** A reader sees the last granted write of a transaction not after it. */
  lemma SeesLastWrite(vs: seq<Version>, writes: seq<(int, int)>, ts: int) returns (i: nat)
    requires Chain(vs) && Holds(vs, writes) && Seen(vs, ts).Some? && ts < LIVE
    ensures i < |writes| && writes[i] == (Seen(vs, ts).value.data, Seen(vs, ts).value.created)
    ensures writes[i].1 <= ts && forall j | i < j < |writes| :: ts < writes[j].1
  {
    ExactlyOneVisible(vs, ts);
    var k :| 0 <= k < |vs| && Covers(vs[k], ts) && Seen(vs, ts) == Some(vs[k]);
    i := |writes| - |vs| + k;
    forall j | i < j < |writes| ensures ts < writes[j].1 {
      var m := j - (|writes| - |vs|);
      ChainRises(vs, k, m);
      assert (vs[m].data, vs[m].created) == writes[j];
    }
  }

  lemma AfterWrite(vs: seq<Version>, writes: seq<(int, int)>, data: int, ts: int)
    requires (vs == [] || Chain(vs)) && Holds(vs, writes) && MayWrite(vs, ts) && ts < LIVE
    ensures Holds(Written(vs, data, ts), writes + [(data, ts)])
  {
    WrittenChain(vs, data, ts);
    if vs != [] {
      assert (vs[|vs| - 1].data, vs[|vs| - 1].created) == writes[|writes| - 1];
    }
  }

  lemma AfterTrim(was: seq<Version>, now: seq<Version>, active: set<int>, writes: seq<(int, int)>)
    requires Holds(was, writes) && Trimmed(was, now, active) && now != []
    ensures Holds(now, writes)
  {
    hide CutAt, Holds;
    var k: nat :| k <= |was| && now == was[k..] && CutAt(was, k, active);
    AfterSuffix(was, k, writes);
  }

  lemma AfterSuffix(was: seq<Version>, k: nat, writes: seq<(int, int)>)
    requires Holds(was, writes) && k < |was|
    ensures Holds(was[k..], writes)
  {
    var now := was[k..];
    forall i | 0 <= i < |now| ensures (now[i].data, now[i].created) == writes[|writes| - |now| + i] {
      assert now[i] == was[k + i];
    }
  }

  /** A write is allowed by the versions exactly if it is by all the writes granted before. */
  lemma MayWriteIff(vs: seq<Version>, writes: seq<(int, int)>, ts: int)
    requires Holds(vs, writes)
    ensures MayWrite(vs, ts) <==> forall j | 0 <= j < |writes| :: writes[j].1 <= ts
  {
    if vs != [] {
      var n := |vs| - 1;
      assert (vs[n].data, vs[n].created) == writes[|writes| - 1];
      assert forall i | 0 <= i < |vs| :: vs[i].created == writes[|writes| - |vs| + i].1;
    }
  }

  lemma {:induction false} WritesGranted(requests: seq<Request>, answers: seq<bool>, obj: string, ts: int)
    requires |answers| == |requests|
    ensures (forall k | 0 <= k < |Writes(requests, answers, obj)| :: Writes(requests, answers, obj)[k].1 <= ts)
            <==> forall j: nat | Granted(requests, answers, j, obj) :: requests[j].tx <= ts
    decreases |requests|
  {
    if requests != [] {
      var n := |requests| - 1;
      var before, earlier, w := requests[..n], answers[..n], Writes(requests[..n], answers[..n], obj);
      WritesGranted(before, earlier, obj, ts);
      assert forall j: nat | j < n :: Granted(before, earlier, j, obj) <==> Granted(requests, answers, j, obj);
      var all := Writes(requests, answers, obj);
      assert forall k | 0 <= k < |w| :: all[k] == w[k];
      if Granted(requests, answers, n, obj) {
        assert all == w + [(requests[n].data, requests[n].tx)];
        assert all[|w|].1 == requests[n].tx;
      }
    }
  }

  lemma MoreGranted(requests: seq<Request>, answers: seq<bool>, x: Request, allowed: bool, j: nat, obj: string)
    requires |answers| == |requests|
    ensures j < |requests| ==> (Granted(requests + [x], answers + [allowed], j, obj) <==> Granted(requests, answers, j, obj))
    ensures Granted(requests + [x], answers + [allowed], |requests|, obj) <==> x.Write? && x.obj == obj && allowed
  {
  }

  lemma MoreWrites(requests: seq<Request>, answers: seq<bool>, x: Request, allowed: bool, obj: string)
    requires |answers| == |requests|
    ensures Writes(requests + [x], answers + [allowed], obj)
            == Writes(requests, answers, obj) + if x.Write? && x.obj == obj && allowed then [(x.data, x.tx)] else []
  {
    assert (requests + [x])[..|requests|] == requests && (answers + [allowed])[..|requests|] == answers;
  }

  lemma MoreWins(requests: seq<Request>, answers: seq<bool>, x: Request, allowed: bool)
    requires |answers| == |requests| && FirstCommitterWins(requests, answers)
    requires x.Write? ==> (allowed <==> forall j: nat | Granted(requests, answers, j, x.obj) :: requests[j].tx <= x.tx)
    ensures FirstCommitterWins(requests + [x], answers + [allowed])
  {
    var more, told, n := requests + [x], answers + [allowed], |requests|;
    forall j: nat, obj | j < n ensures Granted(more, told, j, obj) <==> Granted(requests, answers, j, obj) {
      MoreGranted(requests, answers, x, allowed, j, obj);
    }
    forall i: nat | i < |more| && more[i].Write?
      ensures told[i] <==> forall j: nat | j < i && Granted(more, told, j, more[i].obj) :: more[j].tx <= more[i].tx
    {
      if i < n {
        assert more[i] == requests[i] && told[i] == answers[i];
      } else {
        GrantedWithin(requests, answers, x.obj);
      }
    }
  }

  lemma GrantedWithin(requests: seq<Request>, answers: seq<bool>, obj: string)
    requires |answers| == |requests|
    ensures forall j: nat | Granted(requests, answers, j, obj) :: j < |requests|
  {
  }

  lemma NothingWritten()
    ensures FirstCommitterWins([], []) && forall obj :: Holds([], Writes([], [], obj))
  {
  }

  // ---- the strategy ----

  class MultiVersionStrategy {
    var versionStore: map<string, seq<Version>>

    ghost predicate Valid()
      reads this
    {
      forall obj | obj in versionStore :: Chain(versionStore[obj])
    }

    function Versions(obj: string): seq<Version>
      reads this
    {
      if obj in versionStore then versionStore[obj] else []
    }

    constructor ()
      ensures Valid() && versionStore == map[]
    {
      versionStore := map[];
    }

    method LogWrite(obj: string, data: int, tx: int)
      modifies this
      ensures versionStore == old(versionStore)[obj := Written(old(Versions(obj)), data, tx)]
    {
      var versions := Versions(obj);
      var i := |versions|;
      assert versions[..i] == versions && versions[i..] == [];
      while i > 0
        invariant 0 <= i <= |versions| && Expire(versions, tx) == Expire(versions[..i], tx) + versions[i..]
      {
        i := i - 1;
        assert versions[..i + 1][..i] == versions[..i] && versions[i..] == [versions[i]] + versions[i + 1..];
        if versions[i].expired == LIVE {
          var was := versions;
          versions := versions[i := versions[i].(expired := tx)];
          assert versions == was[..i] + [was[i].(expired := tx)] + was[i + 1..];
          versionStore := versionStore[obj := versions + [Version(data, tx, LIVE)]];
          return;
        }
      }
      assert versions[..0] == [] && versions[0..] == versions && [] + versions == versions;
      versionStore := versionStore[obj := versions + [Version(data, tx, LIVE)]];
    }

    /** A read is refused exactly if there are versions but none from its time or before. */
    method ValidateRead(obj: string, tx: int) returns (allowed: bool)
      requires Valid() && tx < LIVE
      ensures allowed == (obj !in versionStore || versionStore[obj][0].created <= tx)
      ensures allowed && obj in versionStore ==> Seen(versionStore[obj], tx).Some?
    {
      if obj !in versionStore {
        return true;
      }
      var versions := versionStore[obj];
      ExactlyOneVisible(versions, tx);
      var i := |versions|;
      while i > 0
        invariant 0 <= i <= |versions| && forall j | i <= j < |versions| :: !Covers(versions[j], tx)
      {
        i := i - 1;
        if Covers(versions[i], tx) {
          if i > 0 {
            ChainRises(versions, 0, i);
          }
          return true;
        }
      }
      forall j | 0 < j < |versions| ensures versions[j].created >= versions[0].created {
        ChainRises(versions, 0, j);
      }
      i := |versions|;
      while i > 0
        invariant 0 <= i <= |versions|
      {
        i := i - 1;
        if versions[i].created < tx {
          return true;
        }
      }
      allowed := false;
    }

    /** A write is refused exactly if there is a version of a later transaction. */
    method ValidateWrite(obj: string, tx: int) returns (allowed: bool)
      ensures allowed <==> forall v | v in Versions(obj) :: v.created <= tx
      ensures allowed == MayWrite(Versions(obj), tx)
    {
      var versions, i := Versions(obj), 0;
      while i < |versions|
        invariant i <= |versions| && forall j | 0 <= j < i :: versions[j].created <= tx
      {
        if tx < versions[i].created {
          return false;
        }
        i := i + 1;
      }
      allowed := true;
    }

    /** Collection keeps, for every active transaction, the version it sees of every object. */
    method GarbageCollectVersions(active: set<int>)
      requires Valid()
      modifies this
      ensures Valid() && versionStore.Keys == old(versionStore).Keys
      ensures forall obj, tx | obj in versionStore && tx in active && tx < LIVE ::
                Seen(versionStore[obj], tx) == Seen(old(versionStore)[obj], tx)
      ensures active == {} ==> versionStore == old(versionStore)
      ensures active != {} ==> forall obj | obj in versionStore :: Trimmed(old(versionStore)[obj], versionStore[obj], active)
    {
      hide Seen, Collected, Chain, Trimmed;
      if active == {} {
        return;
      }
      var oldest := Least(active);
      var store, kept := versionStore, versionStore;
      var todo := store.Keys;
      while todo != {}
        invariant todo <= kept.Keys == store.Keys && versionStore == store && forall obj | obj in kept :: Chain(kept[obj])
        invariant forall obj | obj in todo :: kept[obj] == store[obj]
        invariant forall obj | obj in kept && obj !in todo :: Trimmed(store[obj], kept[obj], active)
        invariant forall obj, tx | obj in kept && tx in active && tx < LIVE :: Seen(kept[obj], tx) == Seen(store[obj], tx)
        decreases |todo|
      {
        var obj := Pick(todo);
        var cleaned := Collected(store[obj], oldest);
        CollectionKeepsChain(store[obj], oldest);
        ChainNotEmpty(cleaned);
        CollectedIsTrimmed(store[obj], oldest, active);
        forall tx | tx in active && tx < LIVE ensures Seen(cleaned, tx) == Seen(store[obj], tx) {
          CollectionKeepsSeen(store[obj], oldest, tx);
        }
        kept := if cleaned != [] then kept[obj := cleaned] else kept - {obj};
        todo := todo - {obj};
      }
      versionStore := kept;
    }

    ghost predicate Tells(requests: seq<Request>, answers: seq<bool>)
      requires |answers| == |requests|
      reads this
    {
      forall obj :: Holds(Versions(obj), Writes(requests, answers, obj))
    }

    /** One request, after those already answered. */
    method Answer(x: Request, ghost requests: seq<Request>, ghost answers: seq<bool>) returns (allowed: bool)
      requires Valid() && |answers| == |requests| && Tells(requests, answers) && (!x.End? ==> x.tx < LIVE)
      modifies this
      ensures Valid() && Tells(requests + [x], answers + [allowed])
      ensures x.Write? ==> (allowed <==> forall j: nat | Granted(requests, answers, j, x.obj) :: requests[j].tx <= x.tx)
    {
      hide Holds, Writes, Granted, Chain, MayWrite, Written;
      ghost var store := versionStore;
      match x {
        case Read(obj, tx) =>
          allowed := ValidateRead(obj, tx);
        case Write(obj, data, tx) =>
          MayWriteIff(Versions(obj), Writes(requests, answers, obj), tx);
          WritesGranted(requests, answers, obj, tx);
          allowed := ValidateWrite(obj, tx);
          if allowed {
            WrittenChain(Versions(obj), data, tx);
            AfterWrite(Versions(obj), Writes(requests, answers, obj), data, tx);
            LogWrite(obj, data, tx);
          }
        case End(active) =>
          allowed := true;
          GarbageCollectVersions(active);
      }
      forall obj ensures Holds(Versions(obj), Writes(requests + [x], answers + [allowed], obj)) {
        MoreWrites(requests, answers, x, allowed, obj);
        assert Writes(requests, answers, obj) + [] == Writes(requests, answers, obj);
        if x.End? && x.active != {} && obj in store {
          ChainNotEmpty(versionStore[obj]);
          AfterTrim(store[obj], versionStore[obj], x.active, Writes(requests, answers, obj));
        }
      }
    }

    /** In every run the first committer wins, and each object's versions are its last granted writes. */
    method Run(requests: seq<Request>) returns (answers: seq<bool>)
      requires versionStore == map[] && forall i | 0 <= i < |requests| && !requests[i].End? :: requests[i].tx < LIVE
      modifies this
      ensures Valid() && |answers| == |requests|
      ensures FirstCommitterWins(requests, answers) && Tells(requests, answers)
    {
      hide Holds, Writes, Granted, FirstCommitterWins;
      answers := [];
      var i := 0;
      NothingWritten();
      assert requests[..0] == [];
      while i < |requests|
        invariant i <= |requests| && Valid() && |answers| == i
        invariant FirstCommitterWins(requests[..i], answers) && Tells(requests[..i], answers)
      {
        var allowed := Answer(requests[i], requests[..i], answers);
        MoreWins(requests[..i], answers, requests[i], allowed);
        assert requests[..i + 1] == requests[..i] + [requests[i]];
        answers := answers + [allowed];
        i := i + 1;
      }
      assert requests[..i] == requests;
    }
  }
}
