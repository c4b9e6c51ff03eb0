/** Table files: fixed-size rows, packed into blocks of 1024 bytes that no row crosses. */
module RowBlocks {
  import opened Wrappers
  import opened NodeCodec
  import opened Arithmetic
  import opened Sequences

  const BLOCK := 1024

  // ---- fields ----

  datatype Column = IntColumn | FloatColumn | Varchar(len: nat) | Char(len: nat)

  /** A float is its eight packed bytes, a text its encoded bytes. */
  datatype Value = Int(n: int) | Float(packed: seq<Byte>) | Text(text: seq<Byte>) | Missing

  function Width(c: Column): nat {
    match c
    case IntColumn => 4
    case FloatColumn => 8
    case Varchar(len) => len + 1
    case Char(len) => len + 1
  }

  function RowSize(columns: seq<Column>): nat {
    if columns == [] then 0 else Width(columns[0]) + RowSize(columns[1..])
  }

  function Zeros(n: nat): (z: seq<Byte>)
    ensures |z| == n && forall i | 0 <= i < n :: z[i] == 0
  {
    if n == 0 then [] else [0] + Zeros(n - 1)
  }

  /** Filled up on the right, if it is not longer already. */
  function Padded(s: seq<Byte>, n: nat): seq<Byte> {
    if |s| < n then s + Zeros(n - |s|) else s
  }

  function EncodeField(c: Column, v: Value): Option<seq<Byte>> {
    match (c, v)
    case (IntColumn, Int(n)) => Word(n)
    case (FloatColumn, Float(p)) => if |p| == 8 then Some(p) else None
    case (Varchar(len), Text(s)) => Some([1] + Padded(s, len))
    case (Char(len), Text(s)) => Some([2] + Padded(s, len))
    case _ => None
  }

  function StripRight(s: seq<Byte>, x: Byte): (r: seq<Byte>)
    ensures r <= s && (r == [] || r[|r| - 1] != x)
    ensures forall i | |r| <= i < |s| :: s[i] == x
  {
    if s != [] && s[|s| - 1] == x then StripRight(s[..|s| - 1], x) else s
  }

  const SPACE: Byte := 32

  function Spaced(s: seq<Byte>): (r: seq<Byte>)
    ensures |r| == |s| && forall i | 0 <= i < |s| :: r[i] == if s[i] == 0 then SPACE else s[i]
  {
    if s == [] then [] else [if s[0] == 0 then SPACE else s[0]] + Spaced(s[1..])
  }

  /** The encoding of the characters with these code points. A char column is decoded byte by byte, each byte
      a code point of its own, so what was two bytes of one character becomes two characters. */
  function Characters(s: seq<Byte>): (r: seq<Byte>)
    ensures |r| >= |s| && (|r| == |s| <==> forall i | 0 <= i < |s| :: s[i] < 128)
    ensures |r| == |s| ==> r == s
  {
    if s == [] then []
    else (if s[0] < 128 then [s[0]] else if s[0] < 192 then [194, s[0]] else [195, s[0] - 64]) + Characters(s[1..])
  }

  /** The white space among the first 256 code points. */
  predicate Blank(b: Byte) {
    9 <= b <= 13 || 28 <= b <= 32 || b == 133 || b == 160
  }

  function Stripped(s: seq<Byte>): seq<Byte> {
    if s != [] && Blank(s[0]) then Stripped(s[1..])
    else if s != [] && Blank(s[|s| - 1]) then Stripped(s[..|s| - 1])
    else s
  }

  /** The full scan tells the types apart by width: four bytes are an integer, eight a float. */
  function DecodeField(width: nat, s: seq<Byte>): Value
    requires |s| == width > 0
  {
    if width == 4 then Int(Number(s))
    else if width == 8 then Float(s)
    else if s[0] == 1 then Text(StripRight(s[1..], 0))
    else if s[0] == 2 then Text(Characters(Spaced(s[1..])))
    else Missing
  }

  /** Reading a single row goes by the column types, and strips the white space around a char value. */
  function DecodeTyped(c: Column, s: seq<Byte>): Value
    requires |s| == Width(c)
  {
    match c
    case IntColumn => Int(Number(s))
    case FloatColumn => Float(s)
    case _ =>
      if s[0] == 1 then Text(StripRight(s[1..], 0))
      else if s[0] == 2 then Text(Characters(Stripped(Spaced(s[1..]))))
      else Missing
  }

  /** The value is of the column's type and fits it. */
  predicate Fits(c: Column, v: Value) {
    match (c, v)
    case (IntColumn, Int(n)) => 0 <= n < LIMIT
    case (FloatColumn, Float(p)) => |p| == 8
    case (Varchar(len), Text(s)) => |s| <= len
    case (Char(len), Text(s)) => |s| <= len
    case _ => false
  }

  /** What survives the full scan: any number; a text not ending in a zero byte; a char value of full length
      in seven-bit characters other than zero; and neither of the last two where its width is a number's. */
  predicate Survives(c: Column, v: Value) {
    match c
    case IntColumn => true
    case FloatColumn => true
    case Varchar(len) => v.Text? && len != 3 && len != 7 && (v.text == [] || v.text[|v.text| - 1] != 0)
    case Char(len) => v.Text? && len != 3 && len != 7 && |v.text| == len && forall b | b in v.text :: 0 < b < 128
  }

  lemma WordNumber(n: nat)
    requires n < LIMIT
    ensures Number(Word(n).value) == n
  {
    var w := Word(n).value;
    assert w[0..4] == w;
    WordReads(w, 0, n);
    assert Slice(w, 0, 4) == w;
  }

  lemma StrippedPadding(s: seq<Byte>, n: nat)
    requires |s| <= n
    ensures StripRight(Padded(s, n), 0) == s <==> s == [] || s[|s| - 1] != 0
  {
    var p := Padded(s, n);
    var r := StripRight(p, 0);
    assert r == p[..|r|] && p[..|s|] == s;
    assert forall i | |s| <= i < |p| :: p[i] == 0;
    assert |r| <= |s|;
    if s == [] || s[|s| - 1] != 0 {
      assert s != [] ==> p[|s| - 1] != 0;
      assert |r| == |s|;
    }
  }

  lemma SpacedPadding(s: seq<Byte>, n: nat)
    requires |s| <= n
    ensures Characters(Spaced(Padded(s, n))) == s <==> |s| == n && forall b | b in s :: 0 < b < 128
  {
    var p := Padded(s, n);
    if Characters(Spaced(p)) == s {
      assert Spaced(p) == s;
      forall i | 0 <= i < |s| ensures 0 < s[i] < 128 {
        assert Spaced(p)[i] == s[i];
      }
    }
    if |s| == n && forall b | b in s :: 0 < b < 128 {
      assert forall i | 0 <= i < n :: s[i] in s;
      assert Spaced(p) == s;
    }
  }

  /** A field is read back as it was exactly if it survives. */
  lemma FieldSurvivesIff(c: Column, v: Value)
    requires Fits(c, v)
    ensures EncodeField(c, v).Some? && |EncodeField(c, v).value| == Width(c)
    ensures DecodeField(Width(c), EncodeField(c, v).value) == v <==> Survives(c, v)
  {
    hide Word, Number, Padded, StripRight, Spaced, Characters;
    if c.IntColumn? {
      WordNumber(v.n);
    } else if c.Varchar? {
      PaddedLength(v.text, c.len);
      StrippedPadding(v.text, c.len);
      var p := Padded(v.text, c.len);
      assert ([1] + p)[1..] == p;
    } else if c.Char? {
      PaddedLength(v.text, c.len);
      SpacedPadding(v.text, c.len);
      var p := Padded(v.text, c.len);
      assert ([2] + p)[1..] == p;
    }
  }

  /** The bytes of an accented e in a char column of two bytes comes back as two characters, of four bytes. */
  lemma CharacterChanged()
    ensures EncodeField(Char(2), Text([195, 169])) == Some([2, 195, 169])
    ensures DecodeField(3, [2, 195, 169]) == Text([195, 131, 194, 169])
  {
    assert Padded([195, 169], 2) == [195, 169] && [2] + [195, 169] == [2, 195, 169];
    assert [2, 195, 169][1..] == [195, 169] && [195, 169][1..] == [169] && [169][1..] == [];
    assert Spaced([169]) == [169] && Spaced([195, 169]) == [195, 169];
    assert Characters([169]) == [194, 169] && Characters([195, 169]) == [195, 131, 194, 169];
  }

  /** A short char value comes back with spaces. */
  lemma CharFilled()
    ensures EncodeField(Char(2), Text([65])) == Some([2, 65, 0]) && DecodeField(3, [2, 65, 0]) == Text([65, SPACE])
  {
    assert Zeros(0) == [] && Zeros(1) == [0] && [65] + [0] == [65, 0] && [2] + [65, 0] == [2, 65, 0];
    assert [2, 65, 0][1..] == [65, 0] && [65, 0][1..] == [0] && [0][1..] == [];
    assert Spaced([0]) == [SPACE] && Spaced([65, 0]) == [65, SPACE];
  }

  /** A text of three bytes is read as a number. */
  lemma TextAsNumber(s: seq<Byte>)
    requires |s| <= 3
    ensures EncodeField(Varchar(3), Text(s)).Some? && |EncodeField(Varchar(3), Text(s)).value| == 4
    ensures DecodeField(4, EncodeField(Varchar(3), Text(s)).value).Int?
  {
    PaddedLength(s, 3);
  }

  lemma PaddedLength(s: seq<Byte>, n: nat)
    requires |s| <= n
    ensures |Padded(s, n)| == n
  {
  }

  // ---- rows ----

  function EncodeRow(columns: seq<Column>, row: seq<Value>): Option<seq<Byte>> {
    if columns == [] then Some([])
    else if row == [] then None
    else Then(EncodeField(columns[0], row[0]), EncodeRow(columns[1..], row[1..]))
  }

  function DecodeRow(columns: seq<Column>, s: seq<Byte>): (row: seq<Value>)
    requires |s| == RowSize(columns)
    ensures |row| == |columns|
  {
    if columns == [] then []
    else
      var w := Width(columns[0]);
      [DecodeField(w, s[..w])] + DecodeRow(columns[1..], s[w..])
  }

  function DecodeTypedRow(columns: seq<Column>, s: seq<Byte>): seq<Value>
    requires |s| == RowSize(columns)
  {
    if columns == [] then []
    else
      var w := Width(columns[0]);
      [DecodeTyped(columns[0], s[..w])] + DecodeTypedRow(columns[1..], s[w..])
  }

  ghost predicate RowFits(columns: seq<Column>, row: seq<Value>) {
    |row| == |columns| && forall i | 0 <= i < |row| :: Fits(columns[i], row[i])
  }

  ghost predicate RowSurvives(columns: seq<Column>, row: seq<Value>) {
    |row| == |columns| && forall i | 0 <= i < |row| :: Survives(columns[i], row[i])
  }

  /** A row that fits is written in exactly the row size and read back as it was exactly if every field survives. */
  lemma {:induction false} RowSurvivesIff(columns: seq<Column>, row: seq<Value>)
    requires RowFits(columns, row)
    ensures EncodeRow(columns, row).Some? && |EncodeRow(columns, row).value| == RowSize(columns)
    ensures DecodeRow(columns, EncodeRow(columns, row).value) == row <==> RowSurvives(columns, row)
    decreases columns
  {
    hide Fits, Survives, EncodeField, DecodeField;
    if columns != [] {
      var c, v, w := columns[0], row[0], Width(columns[0]);
      assert forall i | 0 <= i < |row[1..]| :: row[1..][i] == row[i + 1] && columns[1..][i] == columns[i + 1];
      assert Fits(c, v) && RowFits(columns[1..], row[1..]);
      RowSurvivesIff(columns[1..], row[1..]);
      FieldSurvivesIff(c, v);
      var first, rest := EncodeField(c, v).value, EncodeRow(columns[1..], row[1..]).value;
      var s := first + rest;
      assert s[..w] == first && s[w..] == rest && row == [v] + row[1..];
      RowSurvivesSplit(columns, row);
      var read := [DecodeField(w, first)] + DecodeRow(columns[1..], rest);
      assert read == row <==> DecodeField(w, first) == v && DecodeRow(columns[1..], rest) == row[1..];
    }
  }

  lemma RowSurvivesSplit(columns: seq<Column>, row: seq<Value>)
    requires |row| == |columns| > 0
    ensures RowSurvives(columns, row) <==> Survives(columns[0], row[0]) && RowSurvives(columns[1..], row[1..])
  {
    assert forall i | 0 <= i < |row[1..]| :: row[1..][i] == row[i + 1] && columns[1..][i] == columns[i + 1];
    if Survives(columns[0], row[0]) && RowSurvives(columns[1..], row[1..]) {
      forall i | 0 <= i < |row| ensures Survives(columns[i], row[i]) {
        assert i > 0 ==> Survives(columns[1..][i - 1], row[1..][i - 1]);
      }
    }
  }

  /** Without char columns, and with no text column as wide as a number, both readings agree on any bytes
      whose text markers are those of varchar. */
  predicate Plain(c: Column) {
    c.IntColumn? || c.FloatColumn? || (c.Varchar? && c.len != 3 && c.len != 7)
  }

  lemma {:induction false} ReadingsAgree(columns: seq<Column>, row: seq<Value>)
    requires RowFits(columns, row) && forall i | 0 <= i < |columns| :: Plain(columns[i])
    ensures EncodeRow(columns, row).Some? && |EncodeRow(columns, row).value| == RowSize(columns)
    ensures var s := EncodeRow(columns, row).value; DecodeTypedRow(columns, s) == DecodeRow(columns, s)
    decreases columns
  {
    if columns != [] {
      var c, v, w := columns[0], row[0], Width(columns[0]);
      assert forall i | 0 <= i < |row[1..]| :: row[1..][i] == row[i + 1] && columns[1..][i] == columns[i + 1];
      ReadingsAgree(columns[1..], row[1..]);
      FieldSurvivesIff(c, v);
      var first, rest := EncodeField(c, v).value, EncodeRow(columns[1..], row[1..]).value;
      assert (first + rest)[..w] == first && (first + rest)[w..] == rest;
      assert Plain(c);
    }
  }

  // ---- blocks ----

  /** Rows of size `size` in one block. */
  function PerBlock(size: nat): (n: nat)
    requires 0 < size <= BLOCK
    ensures n >= 1 && Product(n, size) <= BLOCK < Product(n, size) + size
  {
    QuotientOf(BLOCK, size);
    Quotient(BLOCK, size)
  }

  /** Where row `i` lies: the arithmetic of the random access. */
  function Offset(i: nat, size: nat): nat
    requires 0 < size <= BLOCK
  {
    Quotient(i, PerBlock(size)) * BLOCK + Product(Remainder(i, PerBlock(size)), size)
  }

  /** The length of a file of `n` rows. */
  function Length(n: nat, size: nat): nat
    requires 0 < size <= BLOCK
  {
    if n == 0 then 0 else Offset(n - 1, size) + size
  }

  /** The number of rows the full scan finds in `length` bytes. */
  function Count(length: nat, size: nat): nat
    requires 0 < size <= BLOCK
  {
    Product(length / BLOCK, PerBlock(size)) + Quotient(length % BLOCK, size)
  }

  ghost predicate Packed(b: seq<Byte>, rows: seq<seq<Byte>>, size: nat)
    requires 0 < size <= BLOCK
  {
    && |b| == Length(|rows|, size)
    && forall i | 0 <= i < |rows| :: |rows[i]| == size && At(b, Offset(i, size), rows[i])
  }

  /** Row `j` of block `k`. */
  lemma OffsetIs(k: nat, j: nat, size: nat)
    requires 0 < size <= BLOCK && j < PerBlock(size)
    ensures Offset(Product(k, PerBlock(size)) + j, size) == k * BLOCK + Product(j, size)
    ensures Product(j, size) + size <= BLOCK
  {
    QuotientIs(Product(k, PerBlock(size)) + j, PerBlock(size), k, j);
    ProductNext(j, size);
    ProductGrows(j + 1, PerBlock(size), size);
  }

  /** A file of `n` rows holds `n` rows for the full scan. */
  lemma CountsBack(n: nat, size: nat)
    requires 0 < size <= BLOCK
    ensures Count(Length(n, size), size) == n
  {
    hide Product, Quotient, Remainder;
    var per := PerBlock(size);
    if n == 0 {
      ZeroRows(per, size);
      QuotientIs(0, size, 0, 0);
    } else {
      var k, j := Quotient(n - 1, per), Remainder(n - 1, per);
      QuotientOf(n - 1, per);
      OffsetIs(k, j, size);
      ProductNext(j, size);
      ProductNext(k, per);
      var last := Product(j + 1, size);
      if last < BLOCK {
        QuotientIs(last, size, j + 1, 0);
      } else {
        ZeroRows(per, size);
        QuotientIs(0, size, 0, 0);
        LastIsFull(j, size);
      }
    }
  }

  lemma ZeroRows(per: nat, size: nat)
    ensures Product(0, per) == 0 && Product(0, size) == 0
  {
  }

  lemma LastIsFull(j: nat, size: nat)
    requires 0 < size <= BLOCK && j < PerBlock(size) && Product(j + 1, size) == BLOCK
    ensures j + 1 == PerBlock(size)
  {
    if j + 1 < PerBlock(size) {
      ProductNext(j + 1, size);
      ProductGrows(j + 2, PerBlock(size), size);
    }
  }

  // ---- packing ----

  lemma PackedMore(b: seq<Byte>, b': seq<Byte>, rows: seq<seq<Byte>>, row: seq<Byte>, size: nat)
    requires 0 < size <= BLOCK && Packed(b, rows, size) && |row| == size && b <= b'
    requires |b'| == Offset(|rows|, size) + size && At(b', Offset(|rows|, size), row)
    ensures Packed(b', rows + [row], size)
  {
    var all := rows + [row];
    forall i | 0 <= i < |all| ensures |all[i]| == size && At(b', Offset(i, size), all[i]) {
      if i < |rows| {
        var o := Offset(i, size);
        assert At(b, o, rows[i]);
        assert b'[o..o + size] == b[o..o + size];
      }
    }
  }

  /** Where the next row goes, after row `i`. */
  lemma NextOffset(i: nat, size: nat)
    requires 0 < size <= BLOCK
    ensures var per := PerBlock(size); var k, used := Quotient(i, per), Product(Remainder(i, per) + 1, size);
            && Offset(i, size) + size == k * BLOCK + used && used <= BLOCK
            && (if used + size <= BLOCK
                then Offset(i + 1, size) == k * BLOCK + used && Quotient(i + 1, per) == k
                     && Product(Remainder(i + 1, per) + 1, size) == used + size
                else Offset(i + 1, size) == (k + 1) * BLOCK && Quotient(i + 1, per) == k + 1
                     && Product(Remainder(i + 1, per) + 1, size) == size)
  {
    hide Product, Quotient, Remainder;
    var per := PerBlock(size);
    var k, j := Quotient(i, per), Remainder(i, per);
    QuotientOf(i, per);
    OffsetIs(k, j, size);
    ProductNext(j, size);
    ProductNext(j + 1, size);
    if j + 1 < per {
      ProductGrows(j + 2, per, size);
      QuotientIs(i + 1, per, k, j + 1);
      OffsetIs(k, j + 1, size);
    } else {
      ProductNext(k, per);
      QuotientIs(i + 1, per, k + 1, 0);
      OffsetIs(k + 1, 0, size);
      ZeroRows(per, size);
      ProductNext(0, size);
    }
  }

  /** Put a row where the current block is free. */
  lemma Placed(binary: seq<Byte>, current: seq<Byte>, used: nat, row: seq<Byte>)
    requires |current| == BLOCK && used + |row| <= BLOCK
    ensures var current' := current[..used] + row + current[used + |row|..];
            && |current'| == BLOCK && At(binary + current'[..used + |row|], |binary| + used, row)
            && binary + current[..used] <= binary + current'[..used + |row|]
  {
    var current' := current[..used] + row + current[used + |row|..];
    var b := binary + current'[..used + |row|];
    assert b[|binary| + used..|binary| + used + |row|] == row;
    assert b[..|binary| + used] == binary + current[..used];
  }

  method SerializeWithBlocks(rows: seq<seq<Byte>>, size: nat) returns (b: seq<Byte>)
    requires 0 < size <= BLOCK && forall i | 0 <= i < |rows| :: |rows[i]| == size
    ensures Packed(b, rows, size)
  {
    hide Product, Quotient, Remainder, Offset, PerBlock, At, Packed, Zeros;
    var binary: seq<Byte>, current, used := [], Zeros(BLOCK), 0;
    var i := 0;
    NoRowsYet(size);
    assert binary + current[..used] == [] && rows[..i] == [];
    while i < |rows|
      invariant i <= |rows| && |current| == BLOCK && used <= BLOCK
      invariant Packed(binary + current[..used], rows[..i], size)
      invariant if i == 0 then binary == [] && used == 0
                else |binary| == Quotient(i - 1, PerBlock(size)) * BLOCK && used == Product(Remainder(i - 1, PerBlock(size)) + 1, size)
    {
      ghost var before := binary + current[..used];
      if i > 0 {
        NextOffset(i - 1, size);
      }
      if used + |rows[i]| > BLOCK {
        WholeBlock(binary, current, used);
        binary := binary + current;
        current, used := Zeros(BLOCK), 0;
      }
      Placed(binary, current, used, rows[i]);
      current := current[..used] + rows[i] + current[used + |rows[i]|..];
      used := used + |rows[i]|;
      OneMorePacked(before, binary + current[..used], rows, i, size);
      i := i + 1;
    }
    assert rows[..i] == rows;
    b := binary + current[..used];
  }

  lemma WholeBlock(binary: seq<Byte>, current: seq<Byte>, used: nat)
    requires used <= |current| == BLOCK
    ensures binary + current[..used] <= binary + current + Zeros(BLOCK)[..0]
  {
  }

  lemma OneMorePacked(b: seq<Byte>, b': seq<Byte>, rows: seq<seq<Byte>>, i: nat, size: nat)
    requires 0 < size <= BLOCK && i < |rows| && Packed(b, rows[..i], size) && |rows[i]| == size && b <= b'
    requires |b'| == Offset(i, size) + size && At(b', Offset(i, size), rows[i])
    ensures Packed(b', rows[..i + 1], size)
  {
    assert rows[..i + 1] == rows[..i] + [rows[i]];
    PackedMore(b, b', rows[..i], rows[i], size);
  }

  lemma NoRowsYet(size: nat)
    requires 0 < size <= BLOCK
    ensures Packed([], [], size) && Offset(0, size) == 0 && Quotient(0, PerBlock(size)) == 0 && Product(Remainder(0, PerBlock(size)) + 1, size) == size
  {
    ZeroRows(PerBlock(size), size);
    QuotientIs(0, PerBlock(size), 0, 0);
    ProductNext(0, size);
  }

  // ---- scanning ----

  /** The full scan's rows: in every block as many as fit, whatever the bytes. */
  ghost predicate Scanned(b: seq<Byte>, rows: seq<seq<Byte>>, size: nat)
    requires 0 < size <= BLOCK
  {
    forall i | 0 <= i < |rows| :: Offset(i, size) + size <= |b| && rows[i] == b[Offset(i, size)..Offset(i, size) + size]
  }

  method ScanBlocks(b: seq<Byte>, size: nat) returns (rows: seq<seq<Byte>>)
    requires 0 < size <= BLOCK
    ensures |rows| == Count(|b|, size) && Scanned(b, rows, size)
  {
    hide Product, Quotient, Remainder, Offset, PerBlock;
    rows := [];
    ghost var k := 0;
    var i := 0;
    ZeroRows(PerBlock(size), size);
    while i < |b|
      invariant i == k * BLOCK && Scanned(b, rows, size)
      invariant if i <= |b| then |rows| == Product(k, PerBlock(size)) else |rows| == Count(|b|, size)
      decreases |b| - i
    {
      var block := Slice(b, i, BLOCK);
      rows := ScanBlock(b, rows, block, size, k);
      CountSoFar(|b|, k, size);
      k := k + 1;
      i := i + BLOCK;
    }
    CountWhole(|b|, k, size);
  }

  /** The rows of block `k`. */
  method ScanBlock(ghost b: seq<Byte>, before: seq<seq<Byte>>, block: seq<Byte>, size: nat, ghost k: nat) returns (rows: seq<seq<Byte>>)
    requires 0 < size <= BLOCK && k * BLOCK < |b| && block == Slice(b, k * BLOCK, BLOCK)
    requires Scanned(b, before, size) && |before| == Product(k, PerBlock(size))
    ensures Scanned(b, rows, size) && |rows| == Product(k, PerBlock(size)) + Quotient(|block|, size)
  {
    hide Product, Quotient, Remainder, Offset, PerBlock;
    rows := before;
    ghost var m := 0;
    var j := 0;
    ZeroRows(PerBlock(size), size);
    while j + size <= |block|
      invariant j == Product(m, size) <= |block| && |rows| == |before| + m && Scanned(b, rows, size)
      decreases |block| - j
    {
      FitsInBlock(m, size, |block|);
      OffsetIs(k, m, size);
      SliceWithin(b, k * BLOCK, BLOCK, j, size);
      rows := rows + [block[j..j + size]];
      ProductNext(m, size);
      m := m + 1;
      j := j + size;
    }
    QuotientIs(|block|, size, m, |block| - j);
  }

  lemma SliceWithin(b: seq<Byte>, i: nat, n: nat, j: nat, size: nat)
    requires i < |b| && j + size <= |Slice(b, i, n)|
    ensures i + j + size <= |b| && Slice(b, i, n)[j..j + size] == b[i + j..i + j + size]
  {
    var s := Slice(b, i, n);
    assert forall x | 0 <= x < |s| :: s[x] == b[i + x];
    assert s[j..j + size] == b[i + j..i + j + size];
  }

  lemma FitsInBlock(m: nat, size: nat, length: nat)
    requires 0 < size <= BLOCK && length <= BLOCK && Product(m, size) + size <= length
    ensures m < PerBlock(size)
  {
    if m >= PerBlock(size) {
      ProductGrows(PerBlock(size), m, size);
    }
  }

  lemma CountSoFar(length: nat, k: nat, size: nat)
    requires 0 < size <= BLOCK && k * BLOCK < length
    ensures var block := if length - k * BLOCK < BLOCK then length - k * BLOCK else BLOCK;
            Product(k, PerBlock(size)) + Quotient(block, size)
            == if (k + 1) * BLOCK <= length then Product(k + 1, PerBlock(size)) else Count(length, size)
  {
    ProductNext(k, PerBlock(size));
  }

  lemma CountWhole(length: nat, k: nat, size: nat)
    requires 0 < size <= BLOCK && k * BLOCK >= length
    ensures k * BLOCK == length ==> Product(k, PerBlock(size)) == Count(length, size)
  {
    if k * BLOCK == length {
      ZeroRows(PerBlock(size), size);
      QuotientIs(0, size, 0, 0);
    }
  }

  /** Scanning a packed file gives back the rows, and so does reading each where the random access looks. */
  lemma PackedScans(b: seq<Byte>, rows: seq<seq<Byte>>, scanned: seq<seq<Byte>>, size: nat)
    requires 0 < size <= BLOCK && Packed(b, rows, size) && |scanned| == Count(|b|, size) && Scanned(b, scanned, size)
    ensures scanned == rows && forall i | 0 <= i < |rows| :: Slice(b, Offset(i, size), size) == scanned[i]
  {
    CountsBack(|rows|, size);
    forall i | 0 <= i < |rows| ensures scanned[i] == rows[i] && Slice(b, Offset(i, size), size) == scanned[i] {
      assert At(b, Offset(i, size), rows[i]);
    }
  }

  // ---- tables ----

  method Serialize(columns: seq<Column>, rows: seq<seq<Value>>) returns (b: seq<Byte>)
    requires 0 < RowSize(columns) <= BLOCK && forall i | 0 <= i < |rows| :: RowFits(columns, rows[i])
    ensures exists encoded :: Packed(b, encoded, RowSize(columns)) && EncodedRows(columns, rows, encoded)
  {
    hide Packed, EncodeRow, RowFits;
    var encoded: seq<seq<Byte>>, i := [], 0;
    while i < |rows|
      invariant i <= |rows| && EncodedRows(columns, rows[..i], encoded)
      invariant forall j | 0 <= j < |encoded| :: |encoded[j]| == RowSize(columns)
    {
      RowSurvivesIff(columns, rows[i]);
      encoded := encoded + [EncodeRow(columns, rows[i]).value];
      i := i + 1;
    }
    assert rows[..i] == rows;
    b := SerializeWithBlocks(encoded, RowSize(columns));
  }

  ghost predicate EncodedRows(columns: seq<Column>, rows: seq<seq<Value>>, encoded: seq<seq<Byte>>) {
    |encoded| == |rows| && forall i | 0 <= i < |rows| :: EncodeRow(columns, rows[i]) == Some(encoded[i])
  }

  method Deserialize(columns: seq<Column>, b: seq<Byte>) returns (rows: seq<seq<Value>>)
    requires 0 < RowSize(columns) <= BLOCK
    ensures |rows| == Count(|b|, RowSize(columns))
    ensures forall i | 0 <= i < |rows| :: RowRead(columns, b, i, rows[i])
  {
    hide Count, Offset;
    var size := RowSize(columns);
    var scanned := ScanBlocks(b, size);
    rows := [];
    var i := 0;
    while i < |scanned|
      invariant i <= |scanned| && |rows| == i && forall j | 0 <= j < i :: RowRead(columns, b, j, rows[j])
    {
      rows := rows + [DecodeRow(columns, scanned[i])];
      i := i + 1;
    }
  }

  /** `row` is what the full scan makes of the bytes of row `i`. */
  ghost predicate RowRead(columns: seq<Column>, b: seq<Byte>, i: nat, row: seq<Value>)
    requires 0 < RowSize(columns) <= BLOCK
  {
    var o, size := Offset(i, RowSize(columns)), RowSize(columns);
    o + size <= |b| && row == DecodeRow(columns, b[o..o + size])
  }

  /** A number past the last row lies past the end of a packed file: no row is ever cut off. */
  lemma {:induction false} PastTheEnd(n: nat, i: nat, size: nat)
    requires 0 < size <= BLOCK && n <= i
    ensures Offset(i, size) >= Length(n, size)
    decreases i - n
  {
    hide Product, Quotient, Remainder, Offset;
    if n < i {
      PastTheEnd(n, i - 1, size);
      NextOffset(i - 1, size);
    } else if n > 0 {
      NextOffset(n - 1, size);
    }
  }

  /** The row at a given number, read by itself; nothing past the end. */
  method ReadRow(columns: seq<Column>, b: seq<Byte>, i: nat) returns (row: Option<seq<Value>>)
    requires 0 < RowSize(columns) <= BLOCK
    ensures var o, size := Offset(i, RowSize(columns)), RowSize(columns);
            && (o + size <= |b| ==> row == Some(DecodeTypedRow(columns, b[o..o + size])))
            && (o >= |b| ==> row == None)
  {
    var o := Offset(i, RowSize(columns));
    var data := Slice(b, o, RowSize(columns));
    if |data| < RowSize(columns) {
      return None;
    }
    row := Some(DecodeTypedRow(columns, data));
  }

  /** A saved table scans back with as many rows, each as it was exactly if all its fields survive; and
      where the columns are plain, each row read by its number is the scan's. */
  lemma TableRoundTrip(columns: seq<Column>, rows: seq<seq<Value>>, encoded: seq<seq<Byte>>, b: seq<Byte>, i: nat, read: seq<Value>)
    requires 0 < RowSize(columns) <= BLOCK && forall j | 0 <= j < |rows| :: RowFits(columns, rows[j])
    requires Packed(b, encoded, RowSize(columns)) && EncodedRows(columns, rows, encoded)
    requires i < |rows| && RowRead(columns, b, i, read)
    ensures Count(|b|, RowSize(columns)) == |rows| && (read == rows[i] <==> RowSurvives(columns, rows[i]))
    ensures var o, size := Offset(i, RowSize(columns)), RowSize(columns);
            (forall c | c in columns :: Plain(c)) ==> DecodeTypedRow(columns, b[o..o + size]) == read
  {
    hide Count, Offset, EncodeRow, DecodeRow, DecodeTypedRow, RowSurvives, RowFits;
    CountsBack(|rows|, RowSize(columns));
    assert At(b, Offset(i, RowSize(columns)), encoded[i]);
    RowSurvivesIff(columns, rows[i]);
    if forall c | c in columns :: Plain(c) {
      ReadingsAgree(columns, rows[i]);
    }
  }
}
