/** The saved form of a table's schema: texts ended by a zero byte, lengths and flags in one byte. */
module SchemaCodec {
  import opened Wrappers
  import opened Sequences
  import opened NodeCodec

  const VARCHAR: seq<Byte> := [118, 97, 114, 99, 104, 97, 114]
  const CHAR: seq<Byte> := [99, 104, 97, 114]

  datatype Foreign = Foreign(table: seq<Byte>, column: seq<Byte>, cascade: bool)

  /** A column; only a varchar or char column has a length. */
  datatype Definition = Definition(name: seq<Byte>, typ: seq<Byte>, length: Option<int>, primary: bool, foreign: Option<Foreign>)

  datatype Schema = Schema(table: seq<Byte>, columns: seq<Definition>)

  predicate Sized(typ: seq<Byte>) {
    typ == VARCHAR || typ == CHAR
  }

  // Names are written in lower case. What that does to each letter is left open.
  type LowerCase = seq<Byte> -> seq<Byte>

  /** Lower-casing makes no zero bytes. */
  ghost predicate KeepsZerosOut(lower: LowerCase) {
    forall s :: 0 !in s ==> 0 !in lower(s)
  }

  // ---- writing ----

  function Flags(c: Definition): Byte {
    (if c.primary then 1 else 0) + (if c.foreign.Some? then 2 else 0)
  }

  function EncodeForeign(f: Option<Foreign>): seq<Byte> {
    match f
    case None => []
    case Some(k) => (k.table + [0]) + ((k.column + [0]) + [if k.cascade then 1 else 0])
  }

  /** A length that is missing or does not fit in a byte is an error. */
  function EncodeColumn(c: Definition, lower: LowerCase): Option<seq<Byte>> {
    if Sized(c.typ) && (c.length.None? || !(0 <= c.length.value < 256)) then None
    else
      var length := if Sized(c.typ) then [c.length.value] else [];
      Some((lower(c.name) + [0]) + ((c.typ + [0]) + (length + ([Flags(c)] + EncodeForeign(c.foreign)))))
  }

  function EncodeColumns(cs: seq<Definition>, lower: LowerCase): Option<seq<Byte>> {
    if cs == [] then Some([]) else Then(EncodeColumn(cs[0], lower), EncodeColumns(cs[1..], lower))
  }

  function EncodeSchema(s: Schema, lower: LowerCase): Option<seq<Byte>> {
    Then(Some(s.table + [0]), EncodeColumns(s.columns, lower))
  }

  // ---- reading ----

  /** The text from a position up to the next zero byte, which must be there. */
  function TextAt(b: seq<Byte>, i: nat): (r: Option<Read<seq<Byte>>>)
    ensures r.Some? ==> i < r.value.end <= |b|
    decreases |b| - i
  {
    if i >= |b| then None
    else if b[i] == 0 then Some(Read([], i + 1))
    else
      var rest := TextAt(b, i + 1);
      if rest.None? then None else Some(Read([b[i]] + rest.value.value, rest.value.end))
  }

  function ForeignAt(b: seq<Byte>, i: nat): (r: Option<Read<Foreign>>)
    ensures r.Some? ==> i < r.value.end <= |b|
  {
    var table := TextAt(b, i);
    if table.None? then None
    else
      var column := TextAt(b, table.value.end);
      if column.None? || column.value.end >= |b| then None
      else Some(Read(Foreign(table.value.value, column.value.value, b[column.value.end] == 1), column.value.end + 1))
  }

  /** The flags, if there are any: a byte above three is taken for the start of the next column. */
  function FlagsAt(b: seq<Byte>, i: nat, name: seq<Byte>, typ: seq<Byte>, length: Option<int>): (r: Option<Read<Definition>>)
    ensures r.Some? ==> i <= r.value.end
  {
    if i >= |b| || b[i] > 3 then Some(Read(Definition(name, typ, length, false, None), i))
    else
      var primary := b[i] % 2 == 1;
      if b[i] < 2 then Some(Read(Definition(name, typ, length, primary, None), i + 1))
      else
        var foreign := ForeignAt(b, i + 1);
        if foreign.None? then None
        else Some(Read(Definition(name, typ, length, primary, Some(foreign.value.value)), foreign.value.end))
  }

  function ColumnAt(b: seq<Byte>, i: nat): (r: Option<Read<Definition>>)
    ensures r.Some? ==> i < r.value.end
  {
    var name := TextAt(b, i);
    if name.None? then None
    else
      var typ := TextAt(b, name.value.end);
      if typ.None? then None
      else
        var j := typ.value.end;
        if Sized(typ.value.value)
          then FlagsAt(b, j + 1, name.value.value, typ.value.value, Some(Number(Slice(b, j, 1))))
        else FlagsAt(b, j, name.value.value, typ.value.value, None)
  }

  function ColumnsAt(b: seq<Byte>, i: nat): Option<seq<Definition>>
    decreases |b| - i
  {
    if i >= |b| then Some([])
    else
      var first := ColumnAt(b, i);
      if first.None? then None
      else
        var rest := ColumnsAt(b, first.value.end);
        if rest.None? then None else Some([first.value.value] + rest.value)
  }

  function DecodeSchema(b: seq<Byte>): Option<Schema> {
    var table := TextAt(b, 0);
    if table.None? then None
    else
      var columns := ColumnsAt(b, table.value.end);
      if columns.None? then None else Some(Schema(table.value.value, columns.value))
  }

  method Deserialize(b: seq<Byte>) returns (r: Option<Schema>)
    ensures r == DecodeSchema(b)
  {
    hide TextAt, ColumnAt;
    var table := TextAt(b, 0);
    if table.None? {
      return None;
    }
    var columns: seq<Definition>, i := [], table.value.end;
    ghost var all := ColumnsAt(b, i);
    assert all.Some? ==> columns + all.value == all.value;
    while i < |b|
      invariant var rest := ColumnsAt(b, i); (rest.Some? <==> all.Some?) && (rest.Some? ==> columns + rest.value == all.value)
      decreases |b| - i
    {
      var column := ColumnAt(b, i);
      if column.None? {
        return None;
      }
      ghost var rest := ColumnsAt(b, column.value.end);
      assert rest.Some? ==> columns + ([column.value.value] + rest.value) == columns + [column.value.value] + rest.value;
      columns := columns + [column.value.value];
      i := column.value.end;
    }
    assert columns + [] == columns;
    r := Some(Schema(table.value.value, columns));
  }

  // ---- the round trip ----

  /** Texts have no zero bytes, and exactly the sized columns a length, of one byte. */
  predicate Writable(c: Definition) {
    && 0 !in c.name && 0 !in c.typ && (c.length.Some? <==> Sized(c.typ)) && (c.length.Some? ==> 0 <= c.length.value < 256)
    && (c.foreign.Some? ==> 0 !in c.foreign.value.table && 0 !in c.foreign.value.column)
  }

  /** Names come back in lower case. */
  function Lowered(cs: seq<Definition>, lower: LowerCase): seq<Definition> {
    if cs == [] then [] else [cs[0].(name := lower(cs[0].name))] + Lowered(cs[1..], lower)
  }

  lemma {:induction false} TextBack(b: seq<Byte>, i: nat, s: seq<Byte>)
    requires At(b, i, s + [0]) && 0 !in s
    ensures TextAt(b, i) == Some(Read(s, i + |s| + 1))
    decreases s
  {
    if s == [] {
      assert s + [0] == [0];
      AtFirst(b, i, 0);
    } else {
      assert s + [0] == [s[0]] + (s[1..] + [0]);
      AtParts(b, i, [s[0]], s[1..] + [0]);
      AtFirst(b, i, s[0]);
      assert forall x | x in s[1..] :: x in s;
      TextBack(b, i + 1, s[1..]);
      assert s == [s[0]] + s[1..];
    }
  }

  lemma ForeignForm(f: Foreign)
    ensures EncodeForeign(Some(f)) == (f.table + [0]) + ((f.column + [0]) + [if f.cascade then 1 else 0])
  {
  }

  lemma ForeignBack(b: seq<Byte>, i: nat, f: Foreign)
    requires At(b, i, EncodeForeign(Some(f))) && 0 !in f.table && 0 !in f.column
    ensures ForeignAt(b, i) == Some(Read(f, i + |EncodeForeign(Some(f))|))
  {
    hide TextAt, At, EncodeForeign;
    assert EncodeForeign(Some(f)) == (f.table + [0]) + ((f.column + [0]) + [if f.cascade then 1 else 0]) by {
      ForeignForm(f);
    }
    var last: seq<Byte> := [if f.cascade then 1 else 0];
    AtParts(b, i, f.table + [0], (f.column + [0]) + last);
    TextBack(b, i, f.table);
    AtParts(b, i + |f.table| + 1, f.column + [0], last);
    TextBack(b, i + |f.table| + 1, f.column);
    AtFirst(b, i + |f.table| + 1 + |f.column| + 1, last[0]);
  }

  lemma FlagsBack(b: seq<Byte>, i: nat, c: Definition)
    requires Writable(c) && At(b, i, [Flags(c)] + EncodeForeign(c.foreign))
    ensures FlagsAt(b, i, c.name, c.typ, c.length) == Some(Read(c, i + 1 + |EncodeForeign(c.foreign)|))
  {
    AtParts(b, i, [Flags(c)], EncodeForeign(c.foreign));
    AtFirst(b, i, Flags(c));
    if c.foreign.Some? {
      ForeignBack(b, i + 1, c.foreign.value);
    }
  }

  lemma LoweredWritable(c: Definition, lower: LowerCase)
    requires KeepsZerosOut(lower) && Writable(c)
    ensures 0 !in lower(c.name) && 0 !in c.typ && Writable(c.(name := lower(c.name))) && Flags(c.(name := lower(c.name))) == Flags(c)
  {
  }

  lemma ColumnBack(b: seq<Byte>, i: nat, c: Definition, lower: LowerCase)
    requires KeepsZerosOut(lower) && Writable(c) && EncodeColumn(c, lower).Some? && At(b, i, EncodeColumn(c, lower).value)
    ensures ColumnAt(b, i) == Some(Read(c.(name := lower(c.name)), i + |EncodeColumn(c, lower).value|))
  {
    hide TextAt, FlagsAt, ForeignAt, EncodeForeign, At, Slice, Number, Flags;
    LoweredWritable(c, lower);
    var name, tail := lower(c.name), [Flags(c)] + EncodeForeign(c.foreign);
    var length: seq<Byte> := if Sized(c.typ) then [c.length.value] else [];
    AtParts(b, i, name + [0], (c.typ + [0]) + (length + tail));
    TextBack(b, i, name);
    var j := i + |name| + 1;
    AtParts(b, j, c.typ + [0], length + tail);
    TextBack(b, j, c.typ);
    var k := j + |c.typ| + 1;
    AtParts(b, k, length, tail);
    FlagsBack(b, k + |length|, c.(name := name));
    if Sized(c.typ) {
      LengthBack(b, k, c.length.value);
    }
  }

  lemma LengthBack(b: seq<Byte>, i: nat, n: Byte)
    requires At(b, i, [n])
    ensures Number(Slice(b, i, 1)) == n
  {
    AtFirst(b, i, n);
    assert Slice(b, i, 1) == [n] && [n][..0] == [];
  }

  lemma {:induction false} ColumnsBack(b: seq<Byte>, i: nat, cs: seq<Definition>, lower: LowerCase)
    requires KeepsZerosOut(lower) && (forall c | c in cs :: Writable(c)) && EncodeColumns(cs, lower).Some? && i <= |b| && b[i..] == EncodeColumns(cs, lower).value
    ensures ColumnsAt(b, i) == Some(Lowered(cs, lower))
    decreases cs
  {
    hide ColumnAt, EncodeColumn;
    if cs != [] {
      var first, rest := EncodeColumn(cs[0], lower).value, EncodeColumns(cs[1..], lower).value;
      assert At(b, i, first + rest);
      AtParts(b, i, first, rest);
      ColumnBack(b, i, cs[0], lower);
      assert b[i + |first|..] == rest;
      ColumnsBack(b, i + |first|, cs[1..], lower);
    }
  }

  /** Every writable schema can be written. */
  lemma {:induction false} WritableIsWritten(cs: seq<Definition>, lower: LowerCase)
    requires forall c | c in cs :: Writable(c)
    ensures EncodeColumns(cs, lower).Some?
  {
    if cs != [] {
      assert Writable(cs[0]);
      WritableIsWritten(cs[1..], lower);
    }
  }

  /** A schema is written and read back, with the column names in lower case. */
  lemma SchemaRoundTrip(s: Schema, lower: LowerCase)
    requires KeepsZerosOut(lower) && 0 !in s.table && forall c | c in s.columns :: Writable(c)
    ensures EncodeSchema(s, lower).Some? && DecodeSchema(EncodeSchema(s, lower).value) == Some(Schema(s.table, Lowered(s.columns, lower)))
  {
    hide TextAt, ColumnsAt, EncodeColumns;
    WritableIsWritten(s.columns, lower);
    var b, rest := EncodeSchema(s, lower).value, EncodeColumns(s.columns, lower).value;
    assert At(b, 0, (s.table + [0]) + rest);
    AtParts(b, 0, s.table + [0], rest);
    TextBack(b, 0, s.table);
    assert b[|s.table| + 1..] == rest;
    ColumnsBack(b, |s.table| + 1, s.columns, lower);
  }
}
