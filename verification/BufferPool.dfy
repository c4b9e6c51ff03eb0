/** The buffer over the disk: what one sees through the two of them, and what the merges compute of it. */
module BufferPool {
  import opened Wrappers

  /** A row, under its primary key; `rest` stands for the other columns. */
  datatype Row = Row(pk: int, rest: int)

  datatype Key = Key(table: string, pk: int)

  /** A buffered row. A deleted row keeps its data; `None`, the source's empty dictionary, occurs only
      inside a write. */
  datatype Buffered = Buffered(data: Option<Row>, dirty: bool, deleted: bool)

  type Disk = map<string, seq<Row>>

  type Buffer = map<Key, Buffered>

  // ---- rows ----

  ghost predicate NoDup(rows: seq<Row>) {
    forall i, j | 0 <= i < j < |rows| :: rows[i].pk != rows[j].pk
  }

  function RowAt(rows: seq<Row>, pk: int): (r: Option<Row>)
    ensures r.Some? ==> r.value.pk == pk && r.value in rows
    ensures r.None? ==> forall i | 0 <= i < |rows| :: rows[i].pk != pk
  {
    if rows == [] then None else if rows[0].pk == pk then Some(rows[0]) else RowAt(rows[1..], pk)
  }

  lemma {:induction false} RowAtMore(rows: seq<Row>, row: Row, pk: int)
    ensures RowAt(rows + [row], pk) == if RowAt(rows, pk).Some? then RowAt(rows, pk) else if row.pk == pk then Some(row) else None
  {
    if rows != [] {
      assert (rows + [row])[0] == rows[0] && (rows + [row])[1..] == rows[1..] + [row];
      RowAtMore(rows[1..], row, pk);
    }
  }

  // ---- the view ----

  function OnDisk(d: Disk, k: Key): Option<Row> {
    if k.table in d then RowAt(d[k.table], k.pk) else None
  }

  /** The row one sees under a key: the buffer covers the disk, and a deleted row in the buffer hides it. */
  function Lookup(d: Disk, b: Buffer, k: Key): Option<Row> {
    if k in b then (if b[k].deleted then None else b[k].data) else OnDisk(d, k)
  }

  function Seen(d: Disk, b: Buffer): Key -> Option<Row> {
    (k: Key) => Lookup(d, b, k)
  }

  /** Rows belong to tables; clean ones agree with the disk, where clean deletions are done. */
  ghost predicate Good(d: Disk, b: Buffer) {
    && (forall t | t in d :: NoDup(d[t]))
    && (forall k | k in b :: GoodRow(d, b, k))
  }

  ghost predicate GoodRow(d: Disk, b: Buffer, k: Key)
    requires k in b
  {
    && k.table in d && b[k].data.Some? && b[k].data.value.pk == k.pk
    && (b[k].dirty || OnDisk(d, k) == if b[k].deleted then None else b[k].data)
  }

  // ---- merging one table ----

  /** What replaces the row of one key: its buffered row, nothing if that is deleted, itself if there is none. */
  function Merged(rows: seq<Row>, t: string, b: Buffer, pk: int): Option<Row> {
    if Key(t, pk) in b then (if b[Key(t, pk)].deleted then None else b[Key(t, pk)].data) else RowAt(rows, pk)
  }

  ghost predicate Sane(b: Buffer) {
    forall k | k in b :: b[k].data.Some? && b[k].data.value.pk == k.pk
  }

  /** The rows of `rows` as `b` changes them, then the rows of `b` that are not among them. The merge on
      read does this with the whole buffer, the flush with its dirty rows. */
  method Merge(rows: seq<Row>, t: string, b: Buffer) returns (merged: seq<Row>)
    requires NoDup(rows) && Sane(b)
    ensures NoDup(merged) && forall pk :: RowAt(merged, pk) == Merged(rows, t, b, pk)
  {
    merged := [];
    var i := 0;
    while i < |rows|
      invariant i <= |rows| && NoDup(merged)
      invariant forall pk :: RowAt(merged, pk) == if RowAt(rows[..i], pk).Some? then Merged(rows, t, b, pk) else None
    {
      var k := Key(t, rows[i].pk);
      TakeMore(rows, i);
      if k in b {
        if !b[k].deleted {
          Appended(merged, b[k].data.value);
          merged := merged + [b[k].data.value];
        }
      } else {
        Appended(merged, rows[i]);
        merged := merged + [rows[i]];
      }
      i := i + 1;
    }
    assert rows[..i] == rows;
    merged := Rest(rows, merged, t, b);
  }

  /** The rows of `b` that `rows` does not have. */
  method Rest(rows: seq<Row>, before: seq<Row>, t: string, b: Buffer) returns (merged: seq<Row>)
    requires NoDup(before) && Sane(b)
    requires forall pk :: RowAt(before, pk) == if RowAt(rows, pk).Some? then Merged(rows, t, b, pk) else None
    ensures NoDup(merged) && forall pk :: RowAt(merged, pk) == Merged(rows, t, b, pk)
  {
    merged := before;
    var todo := b.Keys;
    while todo != {}
      invariant todo <= b.Keys && NoDup(merged)
      invariant forall pk :: RowAt(merged, pk) == if RowAt(rows, pk).Some? || Key(t, pk) !in todo then Merged(rows, t, b, pk) else None
      decreases |todo|
    {
      var k := Pick(todo);
      if k.table == t && RowAt(rows, k.pk).None? && !b[k].deleted {
        Appended(merged, b[k].data.value);
        merged := merged + [b[k].data.value];
      }
      todo := todo - {k};
    }
  }

  lemma {:induction false} RowAtIndex(rows: seq<Row>, i: nat)
    requires NoDup(rows) && i < |rows|
    ensures RowAt(rows, rows[i].pk) == Some(rows[i])
    decreases i
  {
    if i > 0 {
      RowAtIndex(rows[1..], i - 1);
      assert rows[0].pk != rows[i].pk;
    }
  }

  lemma TakeMore(rows: seq<Row>, i: nat)
    requires NoDup(rows) && i < |rows|
    ensures RowAt(rows, rows[i].pk) == Some(rows[i]) && RowAt(rows[..i], rows[i].pk).None?
    ensures forall pk :: RowAt(rows[..i + 1], pk) == if pk == rows[i].pk then Some(rows[i]) else RowAt(rows[..i], pk)
  {
    RowAtIndex(rows, i);
    assert rows[..i + 1] == rows[..i] + [rows[i]];
    forall pk ensures RowAt(rows[..i + 1], pk) == if pk == rows[i].pk then Some(rows[i]) else RowAt(rows[..i], pk) {
      RowAtMore(rows[..i], rows[i], pk);
    }
  }

  /** A row with a new key at the end. */
  lemma Appended(rows: seq<Row>, row: Row)
    requires NoDup(rows) && RowAt(rows, row.pk).None?
    ensures NoDup(rows + [row])
    ensures forall pk :: RowAt(rows + [row], pk) == if pk == row.pk then Some(row) else RowAt(rows, pk)
  {
    forall pk ensures RowAt(rows + [row], pk) == if pk == row.pk then Some(row) else RowAt(rows, pk) {
      RowAtMore(rows, row, pk);
    }
  }
}
