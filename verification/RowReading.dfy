/** Reading one row by its number, which goes by the column types: what comes back as it was. */
module RowReading {
  import opened Wrappers
  import opened Sequences
  import opened NodeCodec
  import opened RowBlocks

  // ---- stripping ----

  ghost predicate AllBlank(s: seq<Byte>) {
    forall i | 0 <= i < |s| :: Blank(s[i])
  }

  ghost predicate Trimmed(s: seq<Byte>) {
    s == [] || (!Blank(s[0]) && !Blank(s[|s| - 1]))
  }

  lemma BlankFront(s: seq<Byte>, a: seq<Byte>, m: seq<Byte>, b: seq<Byte>)
    requires s != [] && Blank(s[0]) && s[1..] == a + m + b && AllBlank(a)
    ensures s == ([s[0]] + a) + m + b && AllBlank([s[0]] + a)
  {
    hide Blank;
    assert s == [s[0]] + s[1..];
  }

  lemma BlankBack(s: seq<Byte>, a: seq<Byte>, m: seq<Byte>, b: seq<Byte>)
    requires s != [] && Blank(s[|s| - 1]) && s[..|s| - 1] == a + m + b && AllBlank(b)
    ensures s == a + m + (b + [s[|s| - 1]]) && AllBlank(b + [s[|s| - 1]])
  {
    hide Blank;
    assert s == s[..|s| - 1] + [s[|s| - 1]];
  }

  lemma NoBlankEnds(s: seq<Byte>)
    requires s == [] || (!Blank(s[0]) && !Blank(s[|s| - 1]))
    ensures Trimmed(s)
  {
  }

  /** Stripping takes white space off both ends, and leaves none there. */
  lemma {:induction false} StrippedParts(s: seq<Byte>) returns (a: seq<Byte>, b: seq<Byte>)
    ensures s == a + Stripped(s) + b && AllBlank(a) && AllBlank(b) && Trimmed(Stripped(s))
    decreases |s|
  {
    hide Blank, AllBlank, Trimmed;
    if s != [] && Blank(s[0]) {
      a, b := StrippedParts(s[1..]);
      BlankFront(s, a, Stripped(s), b);
      a := [s[0]] + a;
    } else if s != [] && Blank(s[|s| - 1]) {
      a, b := StrippedParts(s[..|s| - 1]);
      BlankBack(s, a, Stripped(s), b);
      b := b + [s[|s| - 1]];
    } else {
      a, b := [], [];
      NoBlankEnds(s);
      NothingStripped(s);
    }
  }

  lemma NothingStripped(s: seq<Byte>)
    requires Trimmed(s)
    ensures s == [] + s + [] && AllBlank([]) && Stripped(s) == s
  {
  }

  /** What stands between white space and does not begin or end with any is what stripping leaves. */
  lemma StrippedIs(s: seq<Byte>, t: seq<Byte>, z: seq<Byte>)
    requires s == t + z && AllBlank(z) && Trimmed(t)
    ensures Stripped(s) == t
  {
    hide Blank, Stripped;
    var a, b := StrippedParts(s);
    var m := Stripped(s);
    assert forall i | 0 <= i < |a| :: s[i] == a[i];
    assert forall i | 0 <= i < |b| :: s[|a| + |m| + i] == b[i];
    assert forall i | 0 <= i < |z| :: s[|t| + i] == z[i];
    assert forall i | 0 <= i < |m| :: s[|a| + i] == m[i];
    assert forall i | 0 <= i < |t| :: s[i] == t[i];
    assert |m| == |t| && (t == [] || a == []);
    assert t != [] ==> s[..|m|] == m && s[..|t|] == t;
  }

  /** How the characters decoded from bytes begin and end. */
  lemma {:induction false} CharactersEnds(t: seq<Byte>)
    requires t != []
    ensures |Characters(t)| > 0 && Characters(t)[0] == if t[0] < 128 then t[0] else if t[0] < 192 then 194 else 195
    ensures var c, last := Characters(t), t[|t| - 1];
            if last < 192 then c[|c| - 1] == last else |c| >= 2 && c[|c| - 2] == 195 && c[|c| - 1] == last - 64
    ensures 0 !in t ==> 0 !in Characters(t)
  {
    if |t| > 1 {
      CharactersEnds(t[1..]);
    } else {
      assert t[1..] == [];
    }
  }

  // ---- fields ----

  /** What survives a reading by the column type: any number; a text not ending in a zero byte; a char value
      in seven-bit characters other than zero, of any length, that does not begin or end with white space. */
  ghost predicate TypedSurvives(c: Column, v: Value) {
    match c
    case IntColumn => true
    case FloatColumn => true
    case Varchar(_) => v.Text? && (v.text == [] || v.text[|v.text| - 1] != 0)
    case Char(_) => v.Text? && Trimmed(v.text) && forall b | b in v.text :: 0 < b < 128
  }

  lemma CharSurvives(s: seq<Byte>, n: nat)
    requires |s| <= n && Trimmed(s) && forall b | b in s :: 0 < b < 128
    ensures Characters(Stripped(Spaced(Padded(s, n)))) == s
  {
    var q := Spaced(Padded(s, n));
    assert forall i | 0 <= i < |s| :: q[i] == s[i] by {
      assert forall i | 0 <= i < |s| :: s[i] in s;
    }
    var z := q[|s|..];
    assert forall i | 0 <= i < |z| :: z[i] == SPACE;
    assert q == s + z;
    StrippedIs(q, s, z);
    assert forall i | 0 <= i < |s| :: s[i] in s;
  }

  /** A char value that comes back begins with the first character left, so nothing was stripped before it. */
  lemma CharPrefix(s: seq<Byte>, n: nat) returns (t: seq<Byte>)
    requires 0 < |s| <= n && Characters(Stripped(Spaced(Padded(s, n)))) == s
    ensures t != [] && Characters(t) == s && t <= s && AllBlank(s[|t|..]) && Trimmed(t) && 0 !in s
  {
    hide Characters, Stripped, Blank, AllBlank, Spaced, Padded;
    var q := Spaced(Padded(s, n));
    var a, b := StrippedParts(q);
    t := Stripped(q);
    CharactersNone();
    CharactersEnds(t);
    NoZeros(s, n);
    assert 0 !in t by {
      assert forall i | 0 <= i < |t| :: t[i] == q[|a| + i];
    }
    SpacedBegins(s, n);
    FirstIsNoBlank(t[0]);
    PrefixLeft(q, a, t, b, s);
  }

  lemma NoZeros(s: seq<Byte>, n: nat)
    ensures forall i | 0 <= i < |Spaced(Padded(s, n))| :: Spaced(Padded(s, n))[i] != 0
  {
  }

  lemma SpacedBegins(s: seq<Byte>, n: nat)
    requires 0 !in s && |s| <= n
    ensures s <= Spaced(Padded(s, n))
  {
    var q := Spaced(Padded(s, n));
    assert forall i | 0 <= i < |s| :: s[i] in s && q[i] == s[i];
  }

  lemma PrefixLeft(q: seq<Byte>, a: seq<Byte>, t: seq<Byte>, b: seq<Byte>, s: seq<Byte>)
    requires q == a + t + b && AllBlank(a) && AllBlank(b) && s <= q && 0 < |t| <= |s| && !Blank(s[0])
    ensures t <= s && AllBlank(s[|t|..])
  {
    hide Blank;
    assert q[0] == s[0];
    assert a == [];
    assert t == q[..|t|] && s == q[..|s|];
    var z := s[|t|..];
    assert forall i | 0 <= i < |z| :: z[i] == q[|t| + i] && q[|t| + i] == b[i];
  }

  lemma CharactersNone()
    ensures Characters([]) == []
  {
  }

  lemma FirstIsNoBlank(b: Byte)
    requires !Blank(b)
    ensures !Blank(if b < 128 then b else if b < 192 then 194 else 195)
  {
  }

  lemma CharSurvivesOnly(s: seq<Byte>, n: nat)
    requires |s| <= n && Characters(Stripped(Spaced(Padded(s, n)))) == s
    ensures Trimmed(s) && forall b | b in s :: 0 < b < 128
  {
    hide Characters, Stripped, Spaced, Padded;
    if s != [] {
      var t := CharPrefix(s, n);
      CharactersEnds(t);
      var z := s[|t|..];
      assert s == t + z;
      assert z == [];
      assert t == s;
      assert forall b | b in s :: b != 0;
    }
  }

  /** A field read by its column's type is as it was exactly if it survives that. */
  lemma FieldReadsIff(c: Column, v: Value)
    requires Fits(c, v)
    ensures EncodeField(c, v).Some? && |EncodeField(c, v).value| == Width(c)
    ensures DecodeTyped(c, EncodeField(c, v).value) == v <==> TypedSurvives(c, v)
  {
    hide Word, Number, Padded, StripRight, Spaced, Characters, Stripped, Trimmed;
    FieldSurvivesIff(c, v);
    if c.IntColumn? {
      WordNumber(v.n);
    } else if c.Varchar? {
      PaddedLength(v.text, c.len);
      StrippedPadding(v.text, c.len);
      var p := Padded(v.text, c.len);
      assert ([1] + p)[1..] == p;
    } else if c.Char? {
      PaddedLength(v.text, c.len);
      var p := Padded(v.text, c.len);
      assert ([2] + p)[1..] == p;
      if TypedSurvives(c, v) {
        CharSurvives(v.text, c.len);
      }
      if Characters(Stripped(Spaced(p))) == v.text {
        CharSurvivesOnly(v.text, c.len);
      }
    }
  }

  // ---- rows ----

  ghost predicate TypedRowSurvives(columns: seq<Column>, row: seq<Value>) {
    |row| == |columns| && forall i | 0 <= i < |row| :: TypedSurvives(columns[i], row[i])
  }

  lemma TypedRowSplit(columns: seq<Column>, row: seq<Value>)
    requires |row| == |columns| > 0
    ensures TypedRowSurvives(columns, row) <==> TypedSurvives(columns[0], row[0]) && TypedRowSurvives(columns[1..], row[1..])
  {
    hide TypedSurvives;
    assert forall i | 0 <= i < |row[1..]| :: row[1..][i] == row[i + 1] && columns[1..][i] == columns[i + 1];
    if TypedSurvives(columns[0], row[0]) && TypedRowSurvives(columns[1..], row[1..]) {
      forall i | 0 <= i < |row| ensures TypedSurvives(columns[i], row[i]) {
        assert i > 0 ==> TypedSurvives(columns[1..][i - 1], row[1..][i - 1]);
      }
    }
  }

  lemma {:induction false} RowReadsIff(columns: seq<Column>, row: seq<Value>)
    requires RowFits(columns, row)
    ensures EncodeRow(columns, row).Some? && |EncodeRow(columns, row).value| == RowSize(columns)
    ensures DecodeTypedRow(columns, EncodeRow(columns, row).value) == row <==> TypedRowSurvives(columns, row)
    decreases columns
  {
    hide Fits, TypedSurvives, TypedRowSurvives, EncodeField, DecodeTyped;
    if columns != [] {
      var c, v, w := columns[0], row[0], Width(columns[0]);
      assert forall i | 0 <= i < |row[1..]| :: row[1..][i] == row[i + 1] && columns[1..][i] == columns[i + 1];
      assert Fits(c, v) && RowFits(columns[1..], row[1..]);
      RowReadsIff(columns[1..], row[1..]);
      FieldReadsIff(c, v);
      var first, rest := EncodeField(c, v).value, EncodeRow(columns[1..], row[1..]).value;
      var s := first + rest;
      assert s[..w] == first && s[w..] == rest && row == [v] + row[1..];
      TypedRowSplit(columns, row);
      var read := [DecodeTyped(c, first)] + DecodeTypedRow(columns[1..], rest);
      assert read == row <==> DecodeTyped(c, first) == v && DecodeTypedRow(columns[1..], rest) == row[1..];
    } else {
      NoColumns(row);
    }
  }

  lemma NoColumns(row: seq<Value>)
    requires |row| == 0
    ensures DecodeTypedRow([], []) == row && TypedRowSurvives([], row)
  {
  }

  // ---- tables ----

  /** A saved table has a row at every number below its length and at no other, and each read by its number
      is as it was exactly if all its fields survive a reading by type. */
  method SaveAndRead(columns: seq<Column>, rows: seq<seq<Value>>, i: nat) returns (row: Option<seq<Value>>)
    requires 0 < RowSize(columns) <= BLOCK && forall j | 0 <= j < |rows| :: RowFits(columns, rows[j])
    ensures row.Some? <==> i < |rows|
    ensures i < |rows| ==> (row == Some(rows[i]) <==> TypedRowSurvives(columns, rows[i]))
  {
    hide Packed, EncodeRow, RowFits, Offset, Length, DecodeTypedRow, TypedRowSurvives;
    var b := Serialize(columns, rows);
    ghost var encoded :| Packed(b, encoded, RowSize(columns)) && EncodedRows(columns, rows, encoded);
    row := ReadRow(columns, b, i);
    if i < |rows| {
      RowLies(b, encoded, i, RowSize(columns));
      RowReadsIff(columns, rows[i]);
    } else {
      FileEnds(b, encoded, i, RowSize(columns));
    }
  }

  lemma RowLies(b: seq<Byte>, encoded: seq<seq<Byte>>, i: nat, size: nat)
    requires 0 < size <= BLOCK && Packed(b, encoded, size) && i < |encoded|
    ensures Offset(i, size) + size <= |b| && b[Offset(i, size)..Offset(i, size) + size] == encoded[i]
  {
    hide Offset, Length;
    assert At(b, Offset(i, size), encoded[i]);
  }

  lemma FileEnds(b: seq<Byte>, encoded: seq<seq<Byte>>, i: nat, size: nat)
    requires 0 < size <= BLOCK && Packed(b, encoded, size) && i >= |encoded|
    ensures Offset(i, size) >= |b|
  {
    hide Offset, Length;
    PastTheEnd(|encoded|, i, size);
  }
}
