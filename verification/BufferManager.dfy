/** `BufferManager`: reading, writing, evicting and flushing change the buffer and the disk, but what one
    sees through them only as asked. */
module BufferManager {
  import opened Wrappers
  import opened BufferPool
  import opened WriteAheadLog
  import Steps = BufferSteps

  // ---- saving: the second merge, with the disk as it is then ----

  /** A table ready to be saved: its new rows, and the keys deleted from it. */
  datatype Prepared = Prepared(rows: seq<Row>, deleted: set<int>)

  /** What saving leaves under a key: its new row, or nothing if it was deleted, or its old row. */
  function Saved(existing: seq<Row>, p: Prepared, pk: int): Option<Row> {
    if RowAt(p.rows, pk).Some? then RowAt(p.rows, pk) else if pk in p.deleted then None else RowAt(existing, pk)
  }

  /** What the first loop, over the old rows, leaves under a key. */
  function Kept(existing: seq<Row>, seen: seq<Row>, p: Prepared, pk: int): Option<Row> {
    if RowAt(seen, pk).None? || pk in p.deleted then None else Saved(existing, p, pk)
  }

  ghost predicate Placed(seen: seq<Row>, p: Prepared, placed: set<int>) {
    forall pk :: pk in placed <==> RowAt(seen, pk).Some? && RowAt(p.rows, pk).Some? && pk !in p.deleted
  }

  lemma NoRows()
    ensures NoDup([]) && forall pk :: RowAt([], pk) == None
  {
  }

  method SaveTable(existing: seq<Row>, p: Prepared) returns (merged: seq<Row>)
    requires NoDup(existing) && NoDup(p.rows)
    ensures NoDup(merged) && forall pk :: RowAt(merged, pk) == Saved(existing, p, pk)
  {
    hide RowAt, NoDup;
    NoRows();
    merged := [];
    var i, placed := 0, {};
    while i < |existing|
      invariant i <= |existing| && NoDup(merged) && Placed(existing[..i], p, placed)
      invariant forall pk :: RowAt(merged, pk) == Kept(existing, existing[..i], p, pk)
    {
      var row := existing[i];
      TakeMore(existing, i);
      if row.pk !in p.deleted {
        var new_ := RowAt(p.rows, row.pk);
        if new_.Some? {
          Appended(merged, new_.value);
          merged, placed := merged + [new_.value], placed + {row.pk};
        } else {
          Appended(merged, row);
          merged := merged + [row];
        }
      }
      i := i + 1;
    }
    assert existing[..i] == existing;
    merged := SaveRest(existing, p, merged, placed);
  }

  /** The new rows that did not take the place of an old one. */
  method SaveRest(existing: seq<Row>, p: Prepared, before: seq<Row>, placed: set<int>) returns (merged: seq<Row>)
    requires NoDup(p.rows) && NoDup(before) && Placed(existing, p, placed)
    requires forall pk :: RowAt(before, pk) == Kept(existing, existing, p, pk)
    ensures NoDup(merged) && forall pk :: RowAt(merged, pk) == Saved(existing, p, pk)
  {
    hide RowAt, NoDup;
    NoRows();
    merged := before;
    var i := 0;
    assert p.rows[..0] == [];
    while i < |p.rows|
      invariant i <= |p.rows| && NoDup(merged)
      invariant forall pk :: RowAt(merged, pk) == if RowAt(p.rows[..i], pk).Some? then RowAt(p.rows, pk) else RowAt(before, pk)
    {
      TakeMore(p.rows, i);
      if p.rows[i].pk !in placed {
        Appended(merged, p.rows[i]);
        merged := merged + [p.rows[i]];
      }
      i := i + 1;
    }
    assert p.rows[..i] == p.rows;
  }

  function Dirty(b: Buffer): Buffer {
    map k | k in b && b[k].dirty :: b[k]
  }

  function Cleaned(b: Buffer): Buffer {
    map k | k in b :: b[k].(dirty := false)
  }

  function DeletedIn(t: string, b: Buffer): set<int> {
    set k | k in b && k.table == t && b[k].deleted :: k.pk
  }

  ghost predicate ReadyFor(d: Disk, b: Buffer, t: string, p: Prepared)
    requires t in d
  {
    && NoDup(p.rows) && (forall pk :: RowAt(p.rows, pk) == Merged(d[t], t, Dirty(b), pk))
    && forall pk :: pk in p.deleted <==> Key(t, pk) in b && b[Key(t, pk)].dirty && b[Key(t, pk)].deleted
  }

  /** Both merges together put on the disk what one saw. */
  lemma SavedIsSeen(d: Disk, b: Buffer, t: string, p: Prepared, pk: int)
    requires Good(d, b) && t in d && ReadyFor(d, b, t, p)
    ensures Saved(d[t], p, pk) == Lookup(d, b, Key(t, pk))
  {
    var k := Key(t, pk);
    assert k in b ==> GoodRow(d, b, k);
  }

  predicate NoDupKeys(ks: seq<Key>) {
    forall i, j | 0 <= i < j < |ks| :: ks[i] != ks[j]
  }

  function Without(ks: seq<Key>, k: Key): seq<Key> {
    if ks == [] then [] else if ks[0] == k then ks[1..] else [ks[0]] + Without(ks[1..], k)
  }

  lemma {:induction false} WithoutIs(ks: seq<Key>, k: Key)
    requires NoDupKeys(ks)
    ensures NoDupKeys(Without(ks, k)) && forall x :: x in Without(ks, k) <==> x in ks && x != k
  {
    if ks != [] {
      assert NoDupKeys(ks[1..]) && forall i | 0 <= i < |ks[1..]| :: ks[1..][i] != ks[0];
      WithoutIs(ks[1..], k);
      assert forall x :: x in ks <==> x == ks[0] || x in ks[1..];
      if ks[0] != k {
        ConsKeys(ks[0], Without(ks[1..], k));
      }
    }
  }

  /** Use moves a key to the end; the others keep their order. */
  function Touched(ks: seq<Key>, k: Key): seq<Key> {
    (if k in ks then Without(ks, k) else ks) + [k]
  }

  /** The first key makes room for another if the buffer is full. */
  function Room(ks: seq<Key>, k: Key, capacity: nat): seq<Key> {
    if k in ks || |ks| < capacity || ks == [] then ks else ks[1..]
  }

  /** The request uses its key: there is a row to use. */
  ghost predicate Uses(s: Steps.State, r: Steps.Request) {
    !r.Flush? && (r.Write? || r.key in s.buffer || Steps.See(s, r.key).Some?)
  }

  /** What a request does to the order of use. */
  ghost predicate OrderStep(capacity: nat, s: Steps.State, ks: seq<Key>, r: Steps.Request, ks': seq<Key>) {
    if r.Flush? then ks' == if Dirty(s.buffer) == map[] then [] else ks
    else ks' == if Uses(s, r) then Touched(Room(ks, r.key, capacity), r.key) else ks
  }

  /** The order lists the buffered keys, each once. */
  ghost predicate Lists(ks: seq<Key>, b: Buffer) {
    NoDupKeys(ks) && forall k :: k in ks <==> k in b
  }

  ghost predicate OrdersRun(capacity: nat, requests: seq<Steps.Request>, states: seq<Steps.State>, orders: seq<seq<Key>>) {
    && |orders| == |states| == |requests| + 1
    && (forall i | 0 <= i < |requests| :: OrderStep(capacity, states[i], orders[i], requests[i], orders[i + 1]))
    && forall i | 0 <= i < |orders| :: Lists(orders[i], states[i].buffer)
  }

  lemma RoomTaken(b: Buffer, ks: seq<Key>, key: Key, capacity: nat)
    requires NoDupKeys(ks) && forall k :: k in ks <==> k in b
    ensures Room(ks, key, capacity) == if key !in b && |b| >= capacity && ks != [] then ks[1..] else ks
  {
    OrderSize(b, ks);
  }

  lemma NoOrders(capacity: nat, s: Steps.State, ks: seq<Key>)
    requires Lists(ks, s.buffer)
    ensures OrdersRun(capacity, [], [s], [ks])
  {
  }

  lemma OrdersMore(capacity: nat, requests: seq<Steps.Request>, states: seq<Steps.State>, orders: seq<seq<Key>>,
      r: Steps.Request, s: Steps.State, ks: seq<Key>)
    requires OrdersRun(capacity, requests, states, orders) && Lists(ks, s.buffer)
    requires OrderStep(capacity, states[|requests|], orders[|requests|], r, ks)
    ensures OrdersRun(capacity, requests + [r], states + [s], orders + [ks])
  {
    hide OrderStep, Lists;
  }

  lemma {:induction false} WithoutLast(ks: seq<Key>, k: Key)
    requires k !in ks
    ensures Without(ks + [k], k) == ks
  {
    if ks != [] {
      assert (ks + [k])[0] == ks[0] && (ks + [k])[1..] == ks[1..] + [k];
      WithoutLast(ks[1..], k);
      assert ks == [ks[0]] + ks[1..];
    } else {
      assert [] + [k] == [k] && [k][1..] == [];
    }
  }

  lemma TouchedTwice(ks: seq<Key>, k: Key)
    requires NoDupKeys(ks)
    ensures Touched(Touched(ks, k), k) == Touched(ks, k)
  {
    hide Without;
    WithoutIs(ks, k);
    WithoutLast(if k in ks then Without(ks, k) else ks, k);
  }

  lemma RoomKeeps(ks: seq<Key>, k: Key, capacity: nat)
    requires NoDupKeys(ks)
    ensures NoDupKeys(Room(ks, k, capacity)) && Touched(Touched(Room(ks, k, capacity), k), k) == Touched(Room(ks, k, capacity), k)
  {
    hide Touched;
    if ks != [] {
      FirstKey(ks);
    }
    TouchedTwice(Room(ks, k, capacity), k);
  }

  lemma {:induction false} OrderSize(b: Buffer, ks: seq<Key>)
    requires NoDupKeys(ks) && forall k :: k in ks <==> k in b
    ensures |ks| == |b|
    decreases |ks|
  {
    if ks == [] {
      assert b.Keys == {} by {
        assert forall k :: k !in b.Keys;
      }
    } else {
      FirstKey(ks);
      OneLess(b, ks[0]);
      OrderSize(b - {ks[0]}, ks[1..]);
    }
  }

  lemma ConsKeys(k: Key, ks: seq<Key>)
    requires NoDupKeys(ks) && k !in ks
    ensures NoDupKeys([k] + ks) && forall x :: x in [k] + ks <==> x == k || x in ks
  {
  }

  /** All the prepared tables saved: the disk shows what one saw. */
  method SaveTables(d: Disk, tables: map<string, Prepared>, ghost b: Buffer) returns (d': Disk)
    requires Good(d, b) && forall t | t in tables :: t in d && ReadyFor(d, b, t, tables[t])
    requires forall k | k in b && b[k].dirty :: k.table in tables
    ensures d'.Keys == d.Keys && (forall t | t in d' :: NoDup(d'[t])) && forall k :: OnDisk(d', k) == Lookup(d, b, k)
  {
    hide ReadyFor, Saved, Lookup, GoodRow;
    d' := d;
    var todo := tables.Keys;
    while todo != {}
      invariant todo <= tables.Keys && d'.Keys == d.Keys
      invariant forall t | t in d' :: NoDup(d'[t]) && if t in todo || t !in tables then d'[t] == d[t] else ShowsTable(d'[t], t, d, b)
      decreases |todo|
    {
      var t := Pick(todo);
      TableReady(d, b, t, tables[t]);
      var merged := SaveTable(d'[t], tables[t]);
      TableSeen(d, b, t, tables[t], merged);
      d' := d'[t := merged];
      todo := todo - {t};
    }
    forall k ensures OnDisk(d', k) == Lookup(d, b, k) {
      Untouched(d, b, k);
    }
  }

  ghost predicate ShowsTable(rows: seq<Row>, t: string, d: Disk, b: Buffer) {
    forall pk :: RowAt(rows, pk) == Lookup(d, b, Key(t, pk))
  }

  lemma TableReady(d: Disk, b: Buffer, t: string, p: Prepared)
    requires t in d && ReadyFor(d, b, t, p)
    ensures NoDup(p.rows)
  {
  }

  lemma TableSeen(d: Disk, b: Buffer, t: string, p: Prepared, rows: seq<Row>)
    requires Good(d, b) && t in d && ReadyFor(d, b, t, p) && forall pk :: RowAt(rows, pk) == Saved(d[t], p, pk)
    ensures ShowsTable(rows, t, d, b)
  {
    forall pk ensures RowAt(rows, pk) == Lookup(d, b, Key(t, pk)) {
      SavedIsSeen(d, b, t, p, pk);
    }
  }

  /** Under a key without a dirty row the disk shows what one sees. */
  lemma Untouched(d: Disk, b: Buffer, k: Key)
    requires Good(d, b)
    ensures !(k in b && b[k].dirty) ==> OnDisk(d, k) == Lookup(d, b, k)
    ensures k in b && b[k].dirty ==> k.table in d
  {
    assert k in b ==> GoodRow(d, b, k);
  }

  class BufferManager {
    const capacity: nat
    var bufferData: Buffer
    var lruOrder: seq<Key>
    // The log and the table files, which the source reaches through the log manager and the storage engine.
    var log: Log
    var disk: Disk

    ghost predicate Valid()
      reads this
    {
      && Good(disk, bufferData) && NoDupKeys(lruOrder) && (forall k :: k in lruOrder <==> k in bufferData)
      && |bufferData| <= if capacity == 0 then 1 else capacity
    }

    ghost function See(k: Key): Option<Row>
      reads this
    {
      Lookup(disk, bufferData, k)
    }

    ghost predicate Hidden(k: Key)
      reads this
    {
      k in bufferData && bufferData[k].deleted
    }

    ghost function State(): Steps.State
      reads this
    {
      Steps.State(disk, bufferData, log)
    }

    /** The disk as it was, or as one saw it. */
    twostate predicate DiskFollows()
      reads this
    {
      disk.Keys == old(disk.Keys) && Steps.DiskFollows(old(State()), disk)
    }

    constructor (capacity: nat, disk: Disk)
      requires forall t | t in disk :: NoDup(disk[t])
      ensures Valid() && this.capacity == capacity && bufferData == map[] && log == [] && this.disk == disk
    {
      this.capacity, this.disk, bufferData, lruOrder, log := capacity, disk, map[], [], [];
    }

    method UpdateLru(key: Key)
      requires NoDupKeys(lruOrder)
      modifies this`lruOrder
      ensures NoDupKeys(lruOrder) && lruOrder != [] && lruOrder[|lruOrder| - 1] == key
      ensures forall k :: k in lruOrder <==> k in old(lruOrder) || k == key
      ensures lruOrder == Touched(old(lruOrder), key)
    {
      WithoutIs(lruOrder, key);
      if key in lruOrder {
        lruOrder := Without(lruOrder, key);
      }
      lruOrder := lruOrder + [key];
    }

    /** What a scan of a table returns: the rows one sees, each once. */
    method Scan(t: string) returns (rows: seq<Row>)
      requires Valid() && t in disk
      ensures NoDup(rows) && forall pk :: RowAt(rows, pk) == See(Key(t, pk))
    {
      assert forall k | k in bufferData :: GoodRow(disk, bufferData, k);
      rows := Merge(disk[t], t, bufferData);
    }

    // ---- flushing ----

    method Prepare(t: string, dirty: Buffer) returns (p: Prepared)
      requires Valid() && t in disk && dirty == Dirty(bufferData)
      ensures ReadyFor(disk, bufferData, t, p)
    {
      assert forall k | k in bufferData :: GoodRow(disk, bufferData, k);
      var rows := Merge(disk[t], t, dirty);
      p := Prepared(rows, DeletedIn(t, dirty));
      forall pk ensures pk in p.deleted <==> Key(t, pk) in bufferData && bufferData[Key(t, pk)].dirty && bufferData[Key(t, pk)].deleted {
        assert pk in p.deleted <==> Key(t, pk) in dirty && dirty[Key(t, pk)].deleted;
      }
    }

    /** Afterwards the disk alone shows what one saw, and one still sees it; if nothing was dirty the
        buffer is emptied instead. */
    method FlushDirtyBlocks()
      requires Valid()
      modifies this
      ensures Valid() && log == old(log) && disk.Keys == old(disk.Keys)
      ensures forall k :: See(k) == old(See(k)) && OnDisk(disk, k) == old(See(k))
      ensures if Dirty(old(bufferData)) == map[] then bufferData == map[] && lruOrder == [] && disk == old(disk)
              else bufferData == Cleaned(old(bufferData)) && lruOrder == old(lruOrder)
      ensures forall k :: Hidden(k) ==> old(Hidden(k))
    {
      hide Good, Lookup, NoDup, OnDisk, Dirty, Cleaned;
      var dirty := Dirty(bufferData);
      if dirty == map[] {
        NothingDirty(disk, bufferData);
        bufferData, lruOrder := map[], [];
        return;
      }
      var tables := PrepareAll(dirty);
      disk := SaveTables(disk, tables, bufferData);
      CleanedIsGood(old(disk), disk, bufferData);
      CleanedKeys(bufferData);
      bufferData := Cleaned(bufferData);
    }

    method PrepareAll(dirty: Buffer) returns (tables: map<string, Prepared>)
      requires Valid() && dirty == Dirty(bufferData)
      ensures forall t | t in tables :: t in disk && ReadyFor(disk, bufferData, t, tables[t])
      ensures forall k | k in bufferData && bufferData[k].dirty :: k.table in tables
    {
      hide ReadyFor, Good, NoDupKeys;
      tables := map[];
      var todo := set k | k in dirty :: k.table;
      assert forall k | k in bufferData && bufferData[k].dirty :: k in dirty;
      while todo != {}
        invariant forall t | t in tables :: t in disk && ReadyFor(disk, bufferData, t, tables[t])
        invariant forall t | t in todo :: exists k :: k in dirty && k.table == t
        invariant forall k | k in bufferData && bufferData[k].dirty :: k.table in tables || k.table in todo
        decreases |todo|
      {
        var t := Pick(todo);
        DirtyTable(disk, bufferData, t);
        var p := Prepare(t, dirty);
        tables, todo := tables[t := p], todo - {t};
      }
    }

    // ---- eviction ----

    /** The least recently used row goes; if it is dirty, everything is flushed first. */
    method EvictBlock()
      requires Valid()
      modifies this
      ensures Valid() && log == old(log) && DiskFollows()
      ensures forall k :: See(k) == old(See(k)) && (Hidden(k) ==> old(Hidden(k)))
      ensures if old(lruOrder) == [] then bufferData == old(bufferData)
              else bufferData.Keys == old(bufferData).Keys - {old(lruOrder)[0]} && |bufferData| == |old(bufferData)| - 1
      ensures lruOrder == if old(lruOrder) == [] then [] else old(lruOrder)[1..]
    {
      hide Good, Lookup, NoDupKeys, Cleaned;
      while lruOrder != []
        invariant Valid() && log == old(log) && DiskFollows()
        invariant forall k :: See(k) == old(See(k)) && (Hidden(k) ==> old(Hidden(k)))
        invariant lruOrder == old(lruOrder) && bufferData.Keys == old(bufferData).Keys
        decreases if lruOrder != [] && lruOrder[0] in bufferData && bufferData[lruOrder[0]].dirty then 1 else 0
      {
        var lruKey := lruOrder[0];
        assert lruKey in bufferData;
        if bufferData[lruKey].dirty {
          assert lruKey in Dirty(bufferData);
          CleanedKeys(bufferData);
          FlushDirtyBlocks();
        } else {
          FirstGone(disk, bufferData, lruOrder);
          SameSize(bufferData, old(bufferData));
          lruOrder := lruOrder[1..];
          bufferData := bufferData - {lruKey};
          return;
        }
      }
    }

    // ---- reading and writing ----

    /** In good order but for one row. */
    ghost predicate ValidBut(key: Key)
      reads this
    {
      && Good(disk, bufferData - {key}) && NoDupKeys(lruOrder) && (forall k :: k in lruOrder <==> k in bufferData)
      && |bufferData| <= if capacity == 0 then 1 else capacity
    }

    method AddToBuffer(row: Buffered, key: Key)
      requires Valid() && key !in bufferData
      modifies this
      ensures ValidBut(key) && key in bufferData && bufferData[key] == row && log == old(log)
      ensures DiskFollows() && OnDisk(disk, key) == old(See(key))
      ensures forall k | k != key :: See(k) == old(See(k)) && (Hidden(k) ==> old(Hidden(k)))
      ensures old(|bufferData|) < capacity ==> disk == old(disk) && bufferData == old(bufferData)[key := row]
      ensures lruOrder == Touched(Room(old(lruOrder), key, capacity), key)
    {
      hide Good, Lookup, NoDupKeys, OnDisk, Touched, Room;
      RoomTaken(bufferData, lruOrder, key, capacity);
      if |bufferData| >= capacity {
        ThereIsOne(bufferData, lruOrder);
        EvictBlock();
      }
      NotBuffered(disk, bufferData, key);
      PutRow(disk, bufferData, key, row);
      bufferData := bufferData[key := row];
      UpdateLru(key);
    }

    /** The row, loaded if it was not buffered; nothing if there is none. What one sees stays. */
    method ReadBlock(key: Key) returns (r: Option<Buffered>)
      requires Valid()
      modifies this
      ensures Valid() && log == old(log) && DiskFollows()
      ensures forall k :: See(k) == old(See(k)) && (Hidden(k) ==> old(Hidden(k)))
      ensures r.Some? <==> key in old(bufferData) || old(See(key)).Some?
      ensures r.Some? <==> key in bufferData
      ensures r.Some? ==> bufferData[key] == r.value
      ensures r.Some? ==> r.value == if key in old(bufferData) then old(bufferData)[key] else Buffered(old(See(key)), false, false)
      ensures lruOrder == if r.Some? then Touched(Room(old(lruOrder), key, capacity), key) else old(lruOrder)
    {
      hide Good, NoDupKeys, OnDisk, Touched;
      if key in bufferData {
        UpdateLru(key);
        return Some(bufferData[key]);
      }
      NotBuffered(disk, bufferData, key);
      var found := OnDisk(disk, key);
      if found.None? {
        return None;
      }
      OnDiskUnder(disk, key);
      AddToBuffer(Buffered(found, false, false), key);
      RowIsGood(disk, bufferData, key);
      r := Some(bufferData[key]);
    }

    /** The row to write to: the buffered one, or the one on disk, or an empty one. */
    method Provide(key: Key)
      requires Valid() && key.table in disk
      modifies this
      ensures ValidBut(key) && key in bufferData && log == old(log) && DiskFollows()
      ensures forall k | k != key :: See(k) == old(See(k)) && (Hidden(k) ==> old(Hidden(k)))
      ensures bufferData[key].deleted == old(Hidden(key))
      ensures bufferData[key].data == if old(Hidden(key)) then old(bufferData)[key].data else old(See(key))
      ensures Touched(lruOrder, key) == Touched(Room(old(lruOrder), key, capacity), key)
    {
      hide Good, Lookup, NoDupKeys, OnDisk, Steps.DiskFollows, Touched;
      RoomKeeps(lruOrder, key, capacity);
      ghost var s := State();
      NothingFlushed(s);
      BufferedSeen(disk, bufferData, key);
      if key in bufferData {
        GoneRow(disk, bufferData, key);
        return;
      }
      var r := ReadBlock(key);
      ghost var s1 := State();
      assert forall k :: Steps.See(s1, k) == See(k) && Steps.See(s, k) == old(See(k));
      if r.None? {
        AddToBuffer(Buffered(None, true, false), key);
        Steps.FollowsOn(s, s1, disk);
      } else {
        GoneRow(disk, bufferData, key);
      }
    }

    /** A write is one change of what one sees, and its before-image is what one saw, exactly if the row
        was not deleted in the buffer; then the deletion still hides it. */
    method WriteBlock(tx: TxId, key: Key, newData: Row)
      requires Valid() && newData.pk == key.pk && key.table in disk
      modifies this
      ensures Valid() && DiskFollows()
      ensures forall k :: (k != key ==> See(k) == old(See(k))) && (Hidden(k) ==> old(Hidden(k)))
      ensures See(key) == (if old(Hidden(key)) then None else Some(newData))
      ensures log == old(log) + [Operation(tx, key, if old(Hidden(key)) then old(bufferData)[key].data else old(See(key)), Some(newData))]
      ensures lruOrder == Touched(Room(old(lruOrder), key, capacity), key)
    {
      hide Good, Lookup, NoDupKeys, OnDisk, Steps.DiskFollows, Touched, Room;
      Provide(key);
      var row := bufferData[key];
      UpdateLru(key);
      log := log + Logged(tx, key, row.data, Some(newData));
      Replaced(disk, bufferData, key, row.(data := Some(newData), dirty := true));
      bufferData := bufferData[key := row.(data := Some(newData), dirty := true)];
    }

    /** A deletion hides the row, whatever it was; without a row nothing happens. */
    method DeleteBlock(tx: TxId, key: Key, oldData: Row)
      requires Valid()
      modifies this
      ensures Valid() && DiskFollows()
      ensures forall k | k != key :: See(k) == old(See(k)) && (Hidden(k) ==> old(Hidden(k)))
      ensures See(key) == None
      ensures log == old(log) + if key in old(bufferData) || old(See(key)).Some? then [Operation(tx, key, Some(oldData), None)] else []
      ensures lruOrder == if key in old(bufferData) || old(See(key)).Some? then Touched(Room(old(lruOrder), key, capacity), key) else old(lruOrder)
    {
      hide Good, NoDupKeys, OnDisk, Touched;
      RoomKeeps(lruOrder, key, capacity);
      if key !in bufferData {
        var r := ReadBlock(key);
        if r.None? {
          return;
        }
      }
      log := log + Logged(tx, key, Some(oldData), None);
      GoneRow(disk, bufferData, key);
      SeenRow(disk, bufferData, key);
      var row := bufferData[key].(deleted := true, dirty := true);
      Replaced(disk, bufferData, key, row);
      bufferData := bufferData[key := row];
      UpdateLru(key);
    }

    /** One request; `logged` says whether it left an entry, `clean` whether that tells what one saw. */
    method Do(request: Steps.Request) returns (logged: bool, clean: bool)
      requires Valid() && Steps.Sensible(request, disk)
      modifies this
      ensures Valid() && Steps.Step(old(State()), request, State())
      ensures OrderStep(capacity, old(State()), old(lruOrder), request, lruOrder)
      ensures logged == (Steps.Entries(old(State()), request) != []) && clean == Steps.Clean(old(State()), request)
    {
      hide Good, OnDisk, NoDupKeys, Steps.DiskFollows, Touched, Room, Dirty;
      ghost var s := State();
      assert forall k :: Steps.See(s, k) == See(k);
      assert forall k :: Steps.Hidden(s, k) == Hidden(k);
      NothingFlushed(s);
      match request {
        case Write(tx, key, row) =>
          logged, clean := true, !(key in bufferData && bufferData[key].deleted);
          WriteBlock(tx, key, row);
        case Delete(tx, key, row) =>
          var seen := Lookup(disk, bufferData, key);
          logged := key in bufferData || seen.Some?;
          clean := logged ==> seen == Some(row);
          DeleteBlock(tx, key, row);
        case Read(key) =>
          logged, clean := false, true;
          var r := ReadBlock(key);
        case Flush =>
          logged, clean := false, true;
          FlushDirtyBlocks();
          Flushed(s, disk);
      }
      assert forall k :: Steps.See(State(), k) == See(k);
      assert forall k :: Steps.Hidden(State(), k) == Hidden(k);
    }

    /** Any sequence of requests: replaying the log from the start gives what one sees under a key exactly
        if the key is not lost, and keys are lost only by writing them over a deletion. The before-images
        are what one saw exactly if the run is clean, as it is for careful callers. */
    method Run(requests: seq<Steps.Request>)
        returns (lost: set<Key>, clean: bool, ghost states: seq<Steps.State>, ghost orders: seq<seq<Key>>)
      requires Valid() && forall i | 0 <= i < |requests| :: Steps.Sensible(requests[i], disk)
      modifies this
      ensures Valid() && Steps.IsRun(requests, states) && states[0] == old(State()) && states[|requests|] == State()
      ensures OrdersRun(capacity, requests, states, orders) && orders[0] == old(lruOrder) && orders[|requests|] == lruOrder
      ensures old(log) <= log
      ensures forall k :: Replay(log[|old(log)|..], k, old(See(k))) == See(k) <==> k !in lost
      ensures forall k | k in lost :: Steps.WrittenOver(requests, k, old(Hidden(k)))
      ensures clean <==> Faithful(log[|old(log)|..], Seen(old(disk), old(bufferData)))
      ensures clean <==> Steps.AllClean(requests, states)
      ensures (clean ==> lost == {}) && ProperLog(log[|old(log)|..], disk)
      ensures Steps.Careful(requests, old(State())) ==> clean
    {
      hide Good, Lookup, OnDisk, NoDupKeys, Replay, Faithful, Steps.Step, Steps.IsRun, Steps.Lost, Steps.AllClean, Steps.Careful;
      hide Steps.Clean, Steps.Entries, Steps.WrittenOver, OrderStep, OrdersRun;
      lost, clean, states, orders := {}, true, [State()], [lruOrder];
      NoOrders(capacity, State(), lruOrder);
      var i := 0;
      Steps.NoRun(State());
      while i < |requests|
        invariant i <= |requests| && |states| == i + 1 && Valid() && Steps.IsRun(requests[..i], states)
        invariant states[0] == old(State()) && states[i] == State()
        invariant |orders| == i + 1 && OrdersRun(capacity, requests[..i], states, orders) && orders[0] == old(lruOrder) && orders[i] == lruOrder
        invariant forall k :: k in lost <==> Steps.Lost(requests[..i], states, k)
        invariant clean <==> Steps.AllClean(requests[..i], states)
      {
        var r := requests[i];
        Steps.StillSensible(requests, requests[..i], states, i);
        var logged, cleanly := Do(r);
        if r.Write? {
          lost := if cleanly then lost - {r.key} else lost + {r.key};
        } else if r.Delete? && logged {
          lost := lost - {r.key};
        }
        clean := clean && cleanly;
        Steps.RunMore(requests[..i], states, r, State());
        OrdersMore(capacity, requests[..i], states, orders, r, State(), lruOrder);
        assert requests[..i + 1] == requests[..i] + [r];
        states, orders := states + [State()], orders + [lruOrder];
        i := i + 1;
      }
      assert requests[..i] == requests;
      Steps.RunTells(requests, states);
    }

    // ---- the recovery writers ----

    method WriteForRecovery(key: Key, newData: Row)
      requires Valid() && newData.pk == key.pk && key.table in disk
      modifies this
      ensures Valid() && log == old(log) && DiskFollows() && bufferData.Keys <= old(bufferData).Keys + {key}
      ensures forall k :: See(k) == if k == key then Some(newData) else old(See(k))
      ensures key in old(bufferData) || old(|bufferData|) < capacity ==>
        disk == old(disk) && bufferData == old(bufferData)[key := Buffered(Some(newData), true, false)]
      ensures lruOrder == Touched(Room(old(lruOrder), key, capacity), key)
    {
      hide Good, NoDupKeys, OnDisk, Touched, Room;
      RoomTaken(bufferData, lruOrder, key, capacity);
      if |bufferData| >= capacity && key !in bufferData {
        ThereIsOne(bufferData, lruOrder);
        EvictBlock();
      }
      PutRow(disk, bufferData, key, Buffered(Some(newData), true, false));
      bufferData := bufferData[key := Buffered(Some(newData), true, false)];
      RowIsGood(disk, bufferData, key);
      UpdateLru(key);
    }

    /** Only the buffer forgets the row: one then sees what the disk has. */
    method DeleteForRecovery(key: Key)
      requires Valid()
      modifies this
      ensures Valid() && log == old(log) && disk == old(disk) && bufferData == old(bufferData) - {key}
      ensures lruOrder == if key in old(bufferData) then Without(old(lruOrder), key) else old(lruOrder)
      ensures forall k :: See(k) == if k == key then OnDisk(disk, k) else old(See(k))
    {
      hide Good, NoDupKeys, OnDisk, Lookup;
      NotBuffered(disk, bufferData - {key}, key);
      NotBuffered(disk, bufferData, key);
      if key in bufferData {
        GoneRow(disk, bufferData, key);
        WithoutIs(lruOrder, key);
        bufferData := bufferData - {key};
        lruOrder := Without(lruOrder, key);
      }
    }
  }

  lemma ThereIsOne(b: Buffer, ks: seq<Key>)
    requires forall k :: k in ks <==> k in b
    ensures |b| > 0 ==> ks != []
  {
    if ks == [] {
      assert forall k :: k !in b;
      assert b.Keys == {};
    }
  }

  lemma NotBuffered(d: Disk, b: Buffer, k: Key)
    ensures k !in b ==> Lookup(d, b, k) == OnDisk(d, k) && b - {k} == b
  {
  }

  lemma PutRow(d: Disk, b: Buffer, key: Key, row: Buffered)
    requires Good(d, b)
    ensures var b' := b[key := row];
            && Good(d, b' - {key}) && |b'| <= |b| + (if key in b then 0 else 1)
            && forall k | k != key :: Lookup(d, b', k) == Lookup(d, b, k)
  {
    var b' := b[key := row];
    forall k | k in b' - {key} ensures GoodRow(d, b' - {key}, k) {
      assert GoodRow(d, b, k);
    }
    assert b'.Keys == b.Keys + {key};
  }

  /** A row replaced by one that is dirty, or that agrees with the disk. */
  lemma Replaced(d: Disk, b: Buffer, key: Key, row: Buffered)
    requires Good(d, b - {key}) && key in b && row.data.Some? && row.data.value.pk == key.pk
    requires key.table in d && (row.dirty || (!row.deleted && OnDisk(d, key) == row.data))
    ensures Good(d, b[key := row]) && |b[key := row]| == |b|
    ensures Lookup(d, b[key := row], key) == if row.deleted then None else row.data
    ensures forall k | k != key :: Lookup(d, b[key := row], k) == Lookup(d, b, k)
  {
    var b' := b[key := row];
    forall k | k in b' ensures GoodRow(d, b', k) {
      if k != key {
        assert GoodRow(d, b - {key}, k);
      }
    }
    assert b'.Keys == b.Keys;
  }

  lemma OnDiskUnder(d: Disk, k: Key)
    requires OnDisk(d, k).Some?
    ensures OnDisk(d, k).value.pk == k.pk && k.table in d
  {
  }

  lemma BufferedSeen(d: Disk, b: Buffer, key: Key)
    ensures key in b ==> Lookup(d, b, key) == if b[key].deleted then None else b[key].data
  {
  }

  lemma Flushed(s: Steps.State, d: Disk)
    requires d.Keys == s.disk.Keys && forall k :: OnDisk(d, k) == Steps.See(s, k)
    ensures Steps.DiskFollows(s, d)
  {
  }

  lemma NothingFlushed(s: Steps.State)
    ensures Steps.DiskFollows(s, s.disk)
  {
  }

  lemma RowIsGood(d: Disk, b: Buffer, key: Key)
    requires Good(d, b - {key}) && key in b && key.table in d && !b[key].deleted
    requires b[key].data.Some? && b[key].data.value.pk == key.pk && (b[key].dirty || OnDisk(d, key) == b[key].data)
    ensures Good(d, b) && Lookup(d, b, key) == b[key].data
  {
    Replaced(d, b, key, b[key]);
    assert b[key := b[key]] == b;
  }

  lemma SeenRow(d: Disk, b: Buffer, key: Key)
    requires Good(d, b) && key in b
    ensures b[key].data.Some? && b[key].data.value.pk == key.pk && key.table in d
  {
    assert GoodRow(d, b, key);
  }

  lemma GoneRow(d: Disk, b: Buffer, key: Key)
    requires Good(d, b)
    ensures Good(d, b - {key}) && |b - {key}| <= |b| && (key in b ==> key.table in d)
    ensures forall k | k != key :: Lookup(d, b - {key}, k) == Lookup(d, b, k)
  {
    forall k | k in b - {key} ensures GoodRow(d, b - {key}, k) {
      assert GoodRow(d, b, k);
    }
    assert key in b ==> GoodRow(d, b, key);
    assert (b - {key}).Keys == b.Keys - {key};
  }

  lemma CleanedKeys(b: Buffer)
    ensures Cleaned(b).Keys == b.Keys && forall k | k in b :: !Cleaned(b)[k].dirty && Cleaned(b)[k].deleted == b[k].deleted
  {
  }

  lemma DirtyTable(d: Disk, b: Buffer, t: string)
    requires Good(d, b) && exists k :: k in Dirty(b) && k.table == t
    ensures t in d
  {
    var k :| k in Dirty(b) && k.table == t;
    assert GoodRow(d, b, k);
  }

  lemma NothingDirty(d: Disk, b: Buffer)
    requires Good(d, b) && Dirty(b) == map[]
    ensures Good(d, map[]) && NoDupKeys([])
    ensures forall k :: OnDisk(d, k) == Lookup(d, b, k) && Lookup(d, map[], k) == Lookup(d, b, k)
  {
    forall k ensures OnDisk(d, k) == Lookup(d, b, k) {
      if k in b {
        assert GoodRow(d, b, k) && k !in Dirty(b);
      }
    }
  }

  lemma CleanedIsGood(d: Disk, d': Disk, b: Buffer)
    requires Good(d, b) && d'.Keys == d.Keys && (forall t | t in d' :: NoDup(d'[t]))
    requires forall k :: OnDisk(d', k) == Lookup(d, b, k)
    ensures Good(d', Cleaned(b)) && |Cleaned(b)| == |b|
    ensures forall k :: Lookup(d', Cleaned(b), k) == Lookup(d, b, k)
  {
    forall k | k in Cleaned(b) ensures GoodRow(d', Cleaned(b), k) {
      assert GoodRow(d, b, k);
    }
    assert Cleaned(b).Keys == b.Keys;
  }

  lemma FirstGone(d: Disk, b: Buffer, ks: seq<Key>)
    requires Good(d, b) && NoDupKeys(ks) && (forall k :: k in ks <==> k in b) && ks != [] && !b[ks[0]].dirty
    ensures var b' := b - {ks[0]};
            && Good(d, b') && NoDupKeys(ks[1..]) && (forall k :: k in ks[1..] <==> k in b')
            && (forall k :: Lookup(d, b', k) == Lookup(d, b, k)) && |b'| == |b| - 1
  {
    hide OnDisk, Good, GoodRow, Lookup;
    CleanSeen(d, b, ks[0]);
    GoneRow(d, b, ks[0]);
    FirstKey(ks);
    OneLess(b, ks[0]);
  }

  lemma CleanSeen(d: Disk, b: Buffer, k: Key)
    requires Good(d, b) && k in b && !b[k].dirty
    ensures Lookup(d, b - {k}, k) == Lookup(d, b, k)
  {
    assert GoodRow(d, b, k);
  }

  lemma FirstKey(ks: seq<Key>)
    requires NoDupKeys(ks) && ks != []
    ensures NoDupKeys(ks[1..]) && forall k :: k in ks[1..] <==> k in ks && k != ks[0]
  {
    assert ks == [ks[0]] + ks[1..];
  }

  lemma OneLess(b: Buffer, k: Key)
    requires k in b
    ensures |b - {k}| == |b| - 1
  {
    assert (b - {k}).Keys == b.Keys - {k};
  }

  lemma SameSize(b: Buffer, b': Buffer)
    requires b.Keys == b'.Keys
    ensures |b| == |b'|
  {
    assert |b| == |b.Keys| && |b'| == |b'.Keys|;
  }
}
