/** The rows a join and a selection keep, told by positions, by the order of numbers and by the order of a dictionary. */
module QueryOrder {
  import opened Wrappers
  import opened ExprGrammar
  import opened Optimizer
  import opened QueryMeaning

  // ---- conditions on amounts ----

  lemma Compared(op: string, l: Tree, r: Tree, row: Row, num: string -> real)
    requires op != "AND" && op != "OR"
    ensures Holds(Op(op, [l, r]), row, num) == Compare(op, Operand(l, row, num), Operand(r, row, num))
  {
  }

  lemma Comparisons(a: Option<Datum>, b: Option<Datum>)
    requires a.Some? && b.Some?
    ensures Compare("=", a, b) <==> a == b
    ensures Compare("<>", a, b) <==> a != b
    ensures Compare("<", a, b) <==> Smaller(a, b)
    ensures Compare(">", a, b) <==> Smaller(b, a)
    ensures Compare("<=", a, b) <==> a == b || Smaller(a, b)
    ensures Compare(">=", a, b) <==> a == b || Smaller(b, a)
  {
    hide Smaller;
    assert "<"[0] == '<' && ">"[0] == '>' && "="[0] == '=' && |"<="| == |">="| == |"<>"| == 2;
    assert "<="[1] == '=' && "<>"[1] == '>' && ">="[0] == '>' && "<="[0] == '<' && "<>"[0] == '<';
  }

  lemma ComparedAll(l: Tree, r: Tree, row: Row, num: string -> real)
    requires Operand(l, row, num).Some? && Operand(r, row, num).Some?
    ensures Holds(Op("=", [l, r]), row, num) <==> Operand(l, row, num) == Operand(r, row, num)
    ensures Holds(Op("<>", [l, r]), row, num) <==> Operand(l, row, num) != Operand(r, row, num)
    ensures Holds(Op("<", [l, r]), row, num) <==> Smaller(Operand(l, row, num), Operand(r, row, num))
    ensures Holds(Op(">", [l, r]), row, num) <==> Smaller(Operand(r, row, num), Operand(l, row, num))
    ensures Holds(Op("<=", [l, r]), row, num) <==> Operand(l, row, num) == Operand(r, row, num) || Smaller(Operand(l, row, num), Operand(r, row, num))
    ensures Holds(Op(">=", [l, r]), row, num) <==> Operand(l, row, num) == Operand(r, row, num) || Smaller(Operand(r, row, num), Operand(l, row, num))
  {
    hide Holds, Compare, Operand, Smaller;
    Comparisons(Operand(l, row, num), Operand(r, row, num));
    Compared("=", l, r, row, num);
    Compared("<>", l, r, row, num);
    Compared("<", l, r, row, num);
    Compared(">", l, r, row, num);
    Compared("<=", l, r, row, num);
    Compared(">=", l, r, row, num);
  }

  /** The operand is an amount in this row: a column that holds it, or a number written so. */
  ghost predicate IsAmount(t: Tree, x: real, row: Row, num: string -> real) {
    || (t.Column? && KeyOf(t) in row && row[KeyOf(t)] == Amount(x))
    || (t.Num? && num(t.value) == x)
  }

  /** The operand is a text in this row: a column that holds it, or the text itself. */
  ghost predicate IsText(t: Tree, s: string, row: Row) {
    || (t.Column? && KeyOf(t) in row && row[KeyOf(t)] == Words(s))
    || (t.Text? && t.value == s)
  }

  lemma AmountsCompare(l: Tree, r: Tree, x: real, y: real, row: Row, num: string -> real)
    requires IsAmount(l, x, row, num) && IsAmount(r, y, row, num)
    ensures Holds(Op("=", [l, r]), row, num) <==> x == y
    ensures Holds(Op("<>", [l, r]), row, num) <==> x != y
    ensures Holds(Op("<", [l, r]), row, num) <==> x < y
    ensures Holds(Op(">", [l, r]), row, num) <==> x > y
    ensures Holds(Op("<=", [l, r]), row, num) <==> x <= y
    ensures Holds(Op(">=", [l, r]), row, num) <==> x >= y
  {
    hide Holds;
    ComparedAll(l, r, row, num);
  }

  // ---- conditions on texts ----

  /** The order of a dictionary: the one is a proper prefix of the other, or the first difference decides. */
  ghost predicate DictionaryBelow(a: string, b: string) {
    || (|a| < |b| && a == b[..|a|])
    || exists k: nat :: FirstDifference(a, b, k) && a[k] < b[k]
  }

  ghost predicate FirstDifference(a: string, b: string, k: nat) {
    k < |a| && k < |b| && a[..k] == b[..k] && a[k] != b[k]
  }

  lemma {:induction false} BeforeIsDictionary(a: string, b: string)
    ensures Before(a, b) <==> DictionaryBelow(a, b)
  {
    if b != "" && a != "" {
      BeforeIsDictionary(a[1..], b[1..]);
      if a[0] != b[0] {
        assert FirstDifference(a, b, 0);
        assert forall k: nat :: FirstDifference(a, b, k) ==> k == 0 by {
          assert forall k: nat | 0 < k < |a| && k < |b| && a[..k] == b[..k] :: a[..k][0] == b[..k][0];
        }
      } else {
        TailDifference(a, b);
      }
    }
  }

  lemma TailDifference(a: string, b: string)
    requires a != "" && b != "" && a[0] == b[0]
    ensures DictionaryBelow(a, b) <==> DictionaryBelow(a[1..], b[1..])
  {
    if |a| < |b| {
      assert a == [a[0]] + a[1..] && b[..|a|] == [b[0]] + b[1..][..|a| - 1];
    }
    forall k: nat | FirstDifference(a, b, k)
      ensures k > 0 && FirstDifference(a[1..], b[1..], k - 1)
    {
      assert a[1..][..k - 1] == a[..k][1..] && b[1..][..k - 1] == b[..k][1..];
    }
    forall k: nat | FirstDifference(a[1..], b[1..], k)
      ensures FirstDifference(a, b, k + 1)
    {
      assert a[..k + 1] == [a[0]] + a[1..][..k] && b[..k + 1] == [b[0]] + b[1..][..k];
    }
  }

  lemma TextsCompare(l: Tree, r: Tree, a: string, b: string, row: Row, num: string -> real)
    requires IsText(l, a, row) && IsText(r, b, row)
    ensures Holds(Op("=", [l, r]), row, num) <==> a == b
    ensures Holds(Op("<>", [l, r]), row, num) <==> a != b
    ensures Holds(Op("<", [l, r]), row, num) <==> DictionaryBelow(a, b)
    ensures Holds(Op(">", [l, r]), row, num) <==> DictionaryBelow(b, a)
    ensures Holds(Op("<=", [l, r]), row, num) <==> !DictionaryBelow(b, a)
    ensures Holds(Op(">=", [l, r]), row, num) <==> !DictionaryBelow(a, b)
  {
    hide DictionaryBelow, Holds;
    ComparedAll(l, r, row, num);
    BeforeIsDictionary(a, b);
    BeforeIsDictionary(b, a);
    DictionaryIsTotal(a, b);
  }

  /** Of two texts exactly one comes first unless they are equal, and nothing comes before the empty one. */
  lemma {:induction false} DictionaryIsTotal(a: string, b: string)
    ensures (DictionaryBelow(a, b) || DictionaryBelow(b, a)) <==> a != b
    ensures !(DictionaryBelow(a, b) && DictionaryBelow(b, a))
    ensures DictionaryBelow("", a) <==> a != ""
    ensures !DictionaryBelow(a, "")
  {
    if a != "" && b != "" {
      DictionaryIsTotal(a[1..], b[1..]);
      if a[0] == b[0] {
        TailDifference(a, b);
        TailDifference(b, a);
        assert a == [a[0]] + a[1..] && b == [b[0]] + b[1..];
      } else {
        BeforeIsDictionary(a, b);
        BeforeIsDictionary(b, a);
      }
    } else {
      BeforeIsDictionary(a, b);
      BeforeIsDictionary(b, a);
    }
    BeforeIsDictionary("", a);
    BeforeIsDictionary(a, "");
  }

  lemma {:induction false} BeforeIsTransitive(a: string, b: string, c: string)
    requires Before(a, b) && Before(b, c)
    ensures Before(a, c)
  {
    if a != "" && a[0] == b[0] == c[0] {
      BeforeIsTransitive(a[1..], b[1..], c[1..]);
    }
  }

  lemma DictionaryIsTransitive(a: string, b: string, c: string)
    requires DictionaryBelow(a, b) && DictionaryBelow(b, c)
    ensures DictionaryBelow(a, c)
  {
    hide DictionaryBelow;
    BeforeIsDictionary(a, b);
    BeforeIsDictionary(b, c);
    BeforeIsDictionary(a, c);
    BeforeIsTransitive(a, b, c);
  }

  // ---- what holds of any operands ----

  /** Both operands are amounts, or both are texts. */
  ghost predicate Comparable(l: Tree, r: Tree, row: Row, num: string -> real) {
    || (exists x, y :: IsAmount(l, x, row, num) && IsAmount(r, y, row, num))
    || (exists a, b :: IsText(l, a, row) && IsText(r, b, row))
  }

  /** One of the three holds and no two; turning the operands round turns the comparison round. */
  lemma Trichotomy(l: Tree, r: Tree, row: Row, num: string -> real)
    requires Comparable(l, r, row, num)
    ensures Holds(Op("<", [l, r]), row, num) || Holds(Op("=", [l, r]), row, num) || Holds(Op(">", [l, r]), row, num)
    ensures !(Holds(Op("<", [l, r]), row, num) && Holds(Op("=", [l, r]), row, num))
    ensures !(Holds(Op("<", [l, r]), row, num) && Holds(Op(">", [l, r]), row, num))
    ensures !(Holds(Op("=", [l, r]), row, num) && Holds(Op(">", [l, r]), row, num))
    ensures Holds(Op(">", [l, r]), row, num) <==> Holds(Op("<", [r, l]), row, num)
    ensures Holds(Op("<=", [l, r]), row, num) <==> !Holds(Op(">", [l, r]), row, num)
    ensures Holds(Op(">=", [l, r]), row, num) <==> !Holds(Op("<", [l, r]), row, num)
    ensures Holds(Op("<>", [l, r]), row, num) <==> !Holds(Op("=", [l, r]), row, num)
  {
    hide Holds, DictionaryBelow, IsAmount, IsText;
    if x, y :| IsAmount(l, x, row, num) && IsAmount(r, y, row, num) {
      AmountsCompare(l, r, x, y, row, num);
      AmountsCompare(r, l, y, x, row, num);
    } else {
      var a, b :| IsText(l, a, row) && IsText(r, b, row);
      TextsCompare(l, r, a, b, row, num);
      TextsCompare(r, l, b, a, row, num);
      DictionaryIsTotal(a, b);
    }
  }

  /** A comparison the engine does not know holds of no row. */
  lemma UnknownFails(op: string, l: Tree, r: Tree, row: Row, num: string -> real)
    requires op !in {"AND", "OR", "=", "<>", "<", ">", "<=", ">="}
    ensures !Holds(Op(op, [l, r]), row, num)
  {
  }

  lemma Connectives(l: Tree, r: Tree, row: Row, num: string -> real)
    ensures Holds(Op("AND", [l, r]), row, num) <==> Holds(l, row, num) && Holds(r, row, num)
    ensures Holds(Op("OR", [l, r]), row, num) <==> Holds(l, row, num) || Holds(r, row, num)
  {
    assert [l, r][0] == l && [l, r][1] == r;
  }

  // ---- the rows of a join ----

  /** Each column of a table goes by the table's name and its own, with its value. */
  lemma {:induction false} QualifiedAt(t: string, rows: seq<map<string, Datum>>, i: nat, k: (string, string))
    requires i < |rows|
    ensures |QualifyAll(t, rows)| == |rows|
    ensures k in QualifyAll(t, rows)[i] <==> k.0 == t && k.1 in rows[i]
    ensures k in QualifyAll(t, rows)[i] ==> QualifyAll(t, rows)[i][k] == rows[i][k.1]
  {
    if i > 0 {
      QualifiedAt(t, rows[1..], i - 1, k);
    } else if |rows| > 1 {
      QualifiedAt(t, rows[1..], 0, k);
    }
  }

  lemma {:induction false} WithAt(x: Row, rows: seq<Row>, j: nat)
    ensures |With(x, rows)| == |rows|
    ensures j < |rows| ==> With(x, rows)[j] == x + rows[j]
  {
    if rows != [] {
      WithAt(x, rows[1..], if j > 0 then j - 1 else 0);
    }
  }

  /** Where the pair of row `i` and row `j` stands among the pairs with `n` right rows. */
  function PairIndex(i: nat, j: nat, n: nat): nat { i * n + j }

  lemma NextPairs(i: nat, j: nat, n: nat)
    ensures PairIndex(0, j, n) == j && PairIndex(i + 1, j, n) == n + PairIndex(i, j, n)
  {
  }

  lemma WithinPairs(i: nat, j: nat, m: nat, n: nat)
    requires i < m && j < n
    ensures PairIndex(i, j, n) < PairIndex(m, 0, n)
    decreases m
  {
    hide PairIndex;
    if i > 0 {
      WithinPairs(i - 1, j, m - 1, n);
      NextPairs(i - 1, j, n);
    } else {
      NextPairs(0, j, n);
    }
    NextPairs(m - 1, 0, n);
  }

  /** The product holds every pair once, the right rows running faster. */
  lemma {:induction false} ProductAt(l: seq<Row>, r: seq<Row>, i: nat, j: nat)
    ensures |Product(l, r)| == PairIndex(|l|, 0, |r|)
    ensures i < |l| && j < |r| ==> PairIndex(i, j, |r|) < |Product(l, r)| && Product(l, r)[PairIndex(i, j, |r|)] == l[i] + r[j]
  {
    hide PairIndex, With;
    if l == [] {
      NextPairs(0, 0, |r|);
    } else {
      WithAt(l[0], r, j);
      NextPairs(|l| - 1, 0, |r|);
      if i == 0 {
        ProductAt(l[1..], r, 0, j);
        NextPairs(0, j, |r|);
      } else {
        ProductAt(l[1..], r, i - 1, j);
        NextPairs(i - 1, j, |r|);
      }
      if i < |l| && j < |r| {
        WithinPairs(i, j, |l|, |r|);
      }
    }
  }

  // ---- the rows a condition keeps ----

  ghost predicate Ascending(at: seq<nat>) {
    forall a, b | 0 <= a < b < |at| :: at[a] < at[b]
  }

  /** The rows kept are those at these positions, in their order, and these are all where the condition holds. */
  ghost predicate Picks(at: seq<nat>, kept: seq<Row>, c: Tree, rows: seq<Row>, num: string -> real) {
    && Ascending(at) && |kept| == |at|
    && (forall a | 0 <= a < |at| :: at[a] < |rows| && kept[a] == rows[at[a]])
    && (forall i: nat | i < |rows| :: i in at <==> Holds(c, rows[i], num))
  }

  lemma {:induction false} FilterPicks(c: Tree, rows: seq<Row>, num: string -> real) returns (at: seq<nat>)
    ensures Picks(at, Filter(c, rows, num), c, rows, num)
    decreases |rows|
  {
    hide Holds, Picks, Filter;
    if rows == [] {
      at := [];
      NothingPicked(c, num);
    } else {
      var n := |rows| - 1;
      at := FilterPicks(c, rows[..n], num);
      assert rows == rows[..n] + [rows[n]];
      FilterJoin(c, rows[..n], [rows[n]], num);
      FilterOne(c, rows[n], num);
      OneMorePick(at, Filter(c, rows[..n], num), c, rows[..n], rows[n], num);
      if Holds(c, rows[n], num) {
        at := at + [n];
      } else {
        assert Filter(c, rows[..n], num) + [] == Filter(c, rows[..n], num);
      }
    }
  }

  lemma NothingPicked(c: Tree, num: string -> real)
    ensures Picks([], Filter(c, [], num), c, [], num)
  {
  }

  lemma OneMorePick(at: seq<nat>, kept: seq<Row>, c: Tree, rows: seq<Row>, x: Row, num: string -> real)
    requires Picks(at, kept, c, rows, num)
    ensures Holds(c, x, num) ==> Picks(at + [|rows|], kept + [x], c, rows + [x], num)
    ensures !Holds(c, x, num) ==> Picks(at, kept, c, rows + [x], num)
  {
    hide Holds;
    var n: nat, more := |rows|, rows + [x];
    assert n !in at;
    forall i: nat | i < |more|
      ensures i in at <==> i < n && Holds(c, more[i], num)
    {
      if i < n {
        assert more[i] == rows[i];
      }
    }
    assert forall a | 0 <= a < |at| :: more[at[a]] == rows[at[a]];
    assert forall i: nat :: i in at + [n] <==> i in at || i == n;
  }

  /** A pair of rows is in the theta join exactly if the condition holds of the two merged. */
  lemma {:induction false} ThetaJoinPairs(l: seq<Row>, r: seq<Row>, on: Tree, num: string -> real) returns (at: seq<nat>)
    ensures Picks(at, Filter(on, Product(l, r), num), on, Product(l, r), num)
    ensures forall i: nat, j: nat | i < |l| && j < |r| :: PairIndex(i, j, |r|) in at <==> Holds(on, l[i] + r[j], num)
  {
    hide Holds, PairIndex;
    at := FilterPicks(on, Product(l, r), num);
    forall i: nat, j: nat | i < |l| && j < |r|
      ensures PairIndex(i, j, |r|) in at <==> Holds(on, l[i] + r[j], num)
    {
      ProductAt(l, r, i, j);
    }
  }

  /** The column holds an amount in every left row, or in every right row; a right row's value wins. */
  ghost predicate LeftAmounts(t: Tree, l: seq<Row>, r: seq<Row>, xs: seq<real>) {
    && t.Column? && |xs| == |l|
    && (forall i | 0 <= i < |l| :: KeyOf(t) in l[i] && l[i][KeyOf(t)] == Amount(xs[i]))
    && (forall j | 0 <= j < |r| :: KeyOf(t) !in r[j])
  }

  ghost predicate RightAmounts(t: Tree, r: seq<Row>, ys: seq<real>) {
    && t.Column? && |ys| == |r|
    && (forall j | 0 <= j < |r| :: KeyOf(t) in r[j] && r[j][KeyOf(t)] == Amount(ys[j]))
  }

  /** For columns of amounts, the pairs joined are those whose numbers stand in the order the condition names. */
  lemma ThetaJoinOrders(op: string, a: Tree, b: Tree, l: seq<Row>, r: seq<Row>, xs: seq<real>, ys: seq<real>, num: string -> real)
      returns (at: seq<nat>)
    requires LeftAmounts(a, l, r, xs) && RightAmounts(b, r, ys)
    ensures Picks(at, Filter(Op(op, [a, b]), Product(l, r), num), Op(op, [a, b]), Product(l, r), num)
    ensures op == "=" ==> forall i: nat, j: nat | i < |l| && j < |r| :: PairIndex(i, j, |r|) in at <==> xs[i] == ys[j]
    ensures op == "<>" ==> forall i: nat, j: nat | i < |l| && j < |r| :: PairIndex(i, j, |r|) in at <==> xs[i] != ys[j]
    ensures op == "<" ==> forall i: nat, j: nat | i < |l| && j < |r| :: PairIndex(i, j, |r|) in at <==> xs[i] < ys[j]
    ensures op == ">" ==> forall i: nat, j: nat | i < |l| && j < |r| :: PairIndex(i, j, |r|) in at <==> xs[i] > ys[j]
    ensures op == "<=" ==> forall i: nat, j: nat | i < |l| && j < |r| :: PairIndex(i, j, |r|) in at <==> xs[i] <= ys[j]
    ensures op == ">=" ==> forall i: nat, j: nat | i < |l| && j < |r| :: PairIndex(i, j, |r|) in at <==> xs[i] >= ys[j]
  {
    hide Holds, PairIndex, Picks, KeyOf;
    at := ThetaJoinPairs(l, r, Op(op, [a, b]), num);
    forall i: nat, j: nat | i < |l| && j < |r|
      ensures IsAmount(a, xs[i], l[i] + r[j], num) && IsAmount(b, ys[j], l[i] + r[j], num)
      ensures Holds(Op("=", [a, b]), l[i] + r[j], num) <==> xs[i] == ys[j]
      ensures Holds(Op("<>", [a, b]), l[i] + r[j], num) <==> xs[i] != ys[j]
      ensures Holds(Op("<", [a, b]), l[i] + r[j], num) <==> xs[i] < ys[j]
      ensures Holds(Op(">", [a, b]), l[i] + r[j], num) <==> xs[i] > ys[j]
      ensures Holds(Op("<=", [a, b]), l[i] + r[j], num) <==> xs[i] <= ys[j]
      ensures Holds(Op(">=", [a, b]), l[i] + r[j], num) <==> xs[i] >= ys[j]
    {
      AmountsCompare(a, b, xs[i], ys[j], l[i] + r[j], num);
    }
  }
}
