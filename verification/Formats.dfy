/** The bytes of saved files, spelled out on small examples. */
module Formats {
  import opened Wrappers
  import opened NodeCodec
  import opened RowBlocks
  import RowReading
  import opened BPlusTree
  import S = SchemaCodec

  // ---- numbers and rows ----

  /** The four bytes of a number, the most significant first. */
  lemma WordDigits(n: nat)
    requires n < LIMIT
    ensures var w := Word(n).value; (w[0] as int) * 0x100_0000 + (w[1] as int) * 0x1_0000 + (w[2] as int) * 0x100 + (w[3] as int) == n
  {
    var w := Word(n).value;
    WordNumber(n);
    FourDigits(w[0], w[1], w[2], w[3]);
    assert w == [w[0], w[1], w[2], w[3]];
  }

  /** The bytes of the row 258, "A", "B" in columns int, varchar(2) and char(2). */
  lemma SampleRow()
    ensures EncodeRow([IntColumn, Varchar(2), Char(2)], [Int(258), Text([65]), Text([66])])
            == Some([0, 0, 1, 2, 1, 65, 0, 2, 66, 0])
  {
    hide EncodeRow;
    var columns, row := [IntColumn, Varchar(2), Char(2)], [Int(258), Text([65]), Text([66])];
    assert columns[1..] == [Varchar(2), Char(2)] && row[1..] == [Text([65]), Text([66])];
    assert [Varchar(2), Char(2)][1..] == [Char(2)] && [Text([65]), Text([66])][1..] == [Text([66])];
    assert [Char(2)][1..] == [] && [Text([66])][1..] == [];
    RowStep(columns, row);
    RowStep([Varchar(2), Char(2)], [Text([65]), Text([66])]);
    RowStep([Char(2)], [Text([66])]);
    RowStep([], []);
    OneZero(65);
    OneZero(66);
    assert [1] + [65, 0] == [1, 65, 0] && [2] + [66, 0] == [2, 66, 0];
    assert [2, 66, 0] + [] == [2, 66, 0] && [1, 65, 0] + [2, 66, 0] == [1, 65, 0, 2, 66, 0];
    assert [0, 0, 1, 2] + [1, 65, 0, 2, 66, 0] == [0, 0, 1, 2, 1, 65, 0, 2, 66, 0];
    assert EncodeField(IntColumn, Int(258)) == Some([0, 0, 1, 2]);
    assert EncodeField(Varchar(2), Text([65])) == Some([1, 65, 0]);
    assert EncodeField(Char(2), Text([66])) == Some([2, 66, 0]);
    assert EncodeRow([Char(2)], [Text([66])]) == Some([2, 66, 0]);
    assert EncodeRow([Varchar(2), Char(2)], [Text([65]), Text([66])]) == Some([1, 65, 0, 2, 66, 0]);
  }

  lemma RowStep(columns: seq<Column>, row: seq<Value>)
    requires |columns| == |row|
    ensures EncodeRow(columns, row) == if columns == [] then Some([]) else Then(EncodeField(columns[0], row[0]), EncodeRow(columns[1..], row[1..]))
  {
  }

  lemma OneZero(b: Byte)
    ensures Padded([b], 2) == [b, 0]
  {
  }

  /** Of rows of 300 bytes three fit in a block, and the fourth begins the next. */
  lemma SampleOffsets()
    ensures Offset(0, 300) == 0 && Offset(1, 300) == 300 && Offset(2, 300) == 600 && Offset(3, 300) == 1024 && Offset(4, 300) == 1324
  {
  }

  // ---- index nodes ----

  lemma SampleWords()
    ensures Word(1) == Some([0, 0, 0, 1]) && Word(2) == Some([0, 0, 0, 2]) && Word(3) == Some([0, 0, 0, 3]) && Word(4) == Some([0, 0, 0, 4])
    ensures Word(22) == Some([0, 0, 0, 22]) && Word(258) == Some([0, 0, 1, 2])
  {
  }

  lemma OneKey(k: Key, u: Texts)
    requires u.encode(k) == [97]
    ensures EncodeKeys([k], u) == Some([0, 0, 0, 1, 97])
  {
    SampleWords();
    assert [k][1..] == [];
    assert [0, 0, 0, 1] + [97] == [0, 0, 0, 1, 97] && [0, 0, 0, 1, 97] + [] == [0, 0, 0, 1, 97];
  }

  const LEAF: seq<Byte> := [0, 0, 0, 4, 1, 0, 0, 0, 1, 0, 0, 0, 1, 97, 0, 0, 0, 1, 0, 0, 1, 2]

  /** A leaf of order 4 with the value 258 under "a". */
  lemma SampleLeaf(k: Key, u: Texts)
    requires u.encode(k) == [97]
    ensures Encode(Leaf(4, [k], [258]), u) == Some(LEAF)
  {
    hide Word, EncodeKeys;
    SampleWords();
    OneKey(k, u);
    assert [258][1..] == [] && [0, 0, 1, 2] + [] == [0, 0, 1, 2];
    assert EncodeVals([258]) == Some([0, 0, 1, 2]);
    assert [0, 0, 0, 4] + ([1] + ([0, 0, 0, 1] + ([0, 0, 0, 1, 97] + ([0, 0, 0, 1] + [0, 0, 1, 2])))) == LEAF;
  }

  /** A node over two such leaves: each child with its length before it. */
  lemma SampleInner(k: Key, u: Texts)
    requires u.encode(k) == [97]
    ensures Encode(Inner(4, [k], [Leaf(4, [k], [258]), Leaf(4, [k], [258])]), u)
            == Some([0, 0, 0, 4, 0, 0, 0, 0, 1, 0, 0, 0, 1, 97, 0, 0, 0, 2] + ([0, 0, 0, 22] + LEAF + ([0, 0, 0, 22] + LEAF)))
  {
    hide Word, EncodeKeys, EncodeVals;
    SampleWords();
    OneKey(k, u);
    SampleLeaf(k, u);
    var leaf: Tree<nat> := Leaf(4, [k], [258]);
    assert [leaf, leaf][1..] == [leaf] && [leaf][1..] == [];
    assert |LEAF| == 22;
    assert EncodeKids([leaf], u) == Some([0, 0, 0, 22] + LEAF + []);
    assert [0, 0, 0, 22] + LEAF + [] == [0, 0, 0, 22] + LEAF;
    assert EncodeKids([leaf, leaf], u) == Some([0, 0, 0, 22] + LEAF + ([0, 0, 0, 22] + LEAF));
    var kids := [0, 0, 0, 22] + LEAF + ([0, 0, 0, 22] + LEAF);
    assert [0, 0, 0, 4] + ([0] + ([0, 0, 0, 1] + ([0, 0, 0, 1, 97] + ([0, 0, 0, 2] + kids))))
        == [0, 0, 0, 4, 0, 0, 0, 0, 1, 0, 0, 0, 1, 97, 0, 0, 0, 2] + kids;
  }

  /** A hash index with rows 1 and 3 under "a". */
  lemma SampleHash(k: Key, u: Texts)
    requires u.encode(k) == [97]
    ensures EncodeHash([(k, [1, 3])], u) == Some([0, 0, 0, 1, 0, 0, 0, 1, 97, 0, 0, 0, 2, 0, 0, 0, 1, 0, 0, 0, 3])
  {
    hide Word;
    SampleWords();
    assert [1, 3][1..] == [3] && [3][1..] == [] && [(k, [1, 3])][1..] == [];
    assert EncodeVals([3]) == Some([0, 0, 0, 3]) by { assert [0, 0, 0, 3] + [] == [0, 0, 0, 3]; }
    assert EncodeVals([1, 3]) == Some([0, 0, 0, 1] + [0, 0, 0, 3]);
    var item := [0, 0, 0, 1] + [97] + ([0, 0, 0, 2] + ([0, 0, 0, 1] + [0, 0, 0, 3]));
    assert EncodeItems([(k, [1, 3])], u) == Some(item + []);
    assert item + [] == item;
    assert [0, 0, 0, 1] + item == [0, 0, 0, 1, 0, 0, 0, 1, 97, 0, 0, 0, 2, 0, 0, 0, 1, 0, 0, 0, 3];
  }

  // ---- schemas ----

  const INT: seq<Byte> := [105, 110, 116]

  /** The table "t" with the primary key "i", an int, and "n", a varchar(20) that refers to "i" of "u" and cascades. */
  lemma SampleSchema()
    ensures S.EncodeSchema(S.Schema([116], [S.Definition([105], INT, None, true, None),
              S.Definition([110], S.VARCHAR, Some(20), false, Some(S.Foreign([117], [105], true)))]), s => s)
            == Some([116, 0, 105, 0] + INT + [0, 1] + ([110, 0] + S.VARCHAR + [0, 20, 2, 117, 0, 105, 0, 1]))
  {
    var first := S.Definition([105], INT, None, true, None);
    var second := S.Definition([110], S.VARCHAR, Some(20), false, Some(S.Foreign([117], [105], true)));
    var lower: S.LowerCase := s => s;
    assert [first, second][1..] == [second] && [second][1..] == [];
    assert INT != S.VARCHAR && INT != S.CHAR by { assert |INT| == 3; }
    FirstColumn(first, lower);
    SecondColumn(second, lower);
    var a, b := [105, 0] + INT + [0, 1], [110, 0] + S.VARCHAR + [0, 20, 2, 117, 0, 105, 0, 1];
    assert S.EncodeColumns([second], lower) == Some(b + []);
    assert b + [] == b;
    assert S.EncodeColumns([first, second], lower) == Some(a + b);
    assert [116] + [0] + (a + b) == [116, 0, 105, 0] + INT + [0, 1] + b;
  }

  lemma FirstColumn(c: S.Definition, lower: S.LowerCase)
    requires c == S.Definition([105], INT, None, true, None) && lower([105]) == [105]
    ensures S.EncodeColumn(c, lower) == Some([105, 0] + INT + [0, 1])
  {
    assert !S.Sized(INT) by { assert |INT| == 3; }
    assert ([105] + [0]) + ((INT + [0]) + ([] + ([1] + []))) == [105, 0] + INT + [0, 1];
  }

  lemma SecondColumn(c: S.Definition, lower: S.LowerCase)
    requires c == S.Definition([110], S.VARCHAR, Some(20), false, Some(S.Foreign([117], [105], true))) && lower([110]) == [110]
    ensures S.EncodeColumn(c, lower) == Some([110, 0] + S.VARCHAR + [0, 20, 2, 117, 0, 105, 0, 1])
  {
    var foreign := ([117] + [0]) + (([105] + [0]) + [1]);
    assert S.EncodeForeign(c.foreign) == foreign;
    assert ([110] + [0]) + ((S.VARCHAR + [0]) + ([20] + ([2] + foreign))) == [110, 0] + S.VARCHAR + [0, 20, 2, 117, 0, 105, 0, 1];
  }
}
