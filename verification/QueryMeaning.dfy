/** What a plan of joins and a selection answers, and what the rewrite does to it. */
module QueryMeaning {
  import opened Wrappers
  import opened ExprGrammar
  import opened Optimizer

  datatype Datum = Amount(v: real) | Words(s: string)

  /** A joined row: its values by table and column. */
  type Row = map<(string, string), Datum>

  type Db = map<string, seq<map<string, Datum>>>

  // ---- conditions ----

  predicate Before(a: string, b: string) {
    if b == "" then false
    else if a == "" then true
    else a[0] < b[0] || (a[0] == b[0] && Before(a[1..], b[1..]))
  }

  predicate Smaller(a: Option<Datum>, b: Option<Datum>) {
    && a.Some? && b.Some?
    && ((a.value.Amount? && b.value.Amount? && a.value.v < b.value.v) || (a.value.Words? && b.value.Words? && Before(a.value.s, b.value.s)))
  }

  /** The comparisons the storage engine knows; any other operator is false. */
  predicate Compare(op: string, a: Option<Datum>, b: Option<Datum>) {
    if op == "=" then a == b
    else if op == "<>" then a != b
    else if op == "<" then Smaller(a, b)
    else if op == ">" then Smaller(b, a)
    else if op == "<=" then a.Some? && b.Some? && (a == b || Smaller(a, b))
    else if op == ">=" then a.Some? && b.Some? && (a == b || Smaller(b, a))
    else false
  }

  function KeyOf(t: Tree): (string, string)
    requires t.Column?
  {
    (if t.table.Some? then t.table.value else "", t.name)
  }

  function Get(row: Row, k: (string, string)): Option<Datum> {
    if k in row then Some(row[k]) else None
  }

  function Operand(t: Tree, row: Row, num: string -> real): Option<Datum> {
    match t
    case Column(_, _) => Get(row, KeyOf(t))
    case Text(s) => Some(Words(s))
    case Num(s) => Some(Amount(num(s)))
    case Op(o, _) => Some(Words(o))
  }

  /** `_evaluate_condition_node`. */
  predicate Holds(t: Tree, row: Row, num: string -> real)
    decreases t
  {
    if !t.Op? then true
    else if t.val == "AND" then forall c | c in t.childs :: Holds(c, row, num)
    else if t.val == "OR" then exists c | c in t.childs :: Holds(c, row, num)
    else |t.childs| >= 2 && Compare(t.val, Operand(t.childs[0], row, num), Operand(t.childs[1], row, num))
  }

  /** The condition is one the selection demands of every row. */
  ghost predicate Conjunct(c: Tree, cond: Tree)
    decreases cond
  {
    c == cond || (cond.Op? && cond.val == "AND" && exists t | t in cond.childs :: Conjunct(c, t))
  }

  lemma {:induction false} ConjunctHolds(c: Tree, cond: Tree, row: Row, num: string -> real)
    requires Conjunct(c, cond) && Holds(cond, row, num)
    ensures Holds(c, row, num)
    decreases cond
  {
    if c != cond {
      var t :| t in cond.childs && Conjunct(c, t);
      ConjunctHolds(c, t, row, num);
    }
  }

  // ---- joins ----

  function QualifyAll(t: string, rows: seq<map<string, Datum>>): seq<Row> {
    if rows == [] then [] else [map k | k in rows[0] :: (t, k) := rows[0][k]] + QualifyAll(t, rows[1..])
  }

  function Filter(c: Tree, rows: seq<Row>, num: string -> real): seq<Row> {
    if rows == [] then []
    else if Holds(c, rows[0], num) then [rows[0]] + Filter(c, rows[1..], num)
    else Filter(c, rows[1..], num)
  }

  /** A row with each of the others; the other's values win. */
  function With(x: Row, rows: seq<Row>): seq<Row> {
    if rows == [] then [] else [x + rows[0]] + With(x, rows[1..])
  }

  function Product(l: seq<Row>, r: seq<Row>): seq<Row> {
    if l == [] then [] else With(l[0], r) + Product(l[1..], r)
  }

  function Table(t: string, name: string, db: Db): seq<Row> {
    if name in db then QualifyAll(t, db[name]) else []
  }

  function Rows(f: Plan, db: Db, num: string -> real): seq<Row>
    requires Joins(f)
  {
    match f
    case Relation(n) => Table(n, n, db)
    case Alias(a, n) => Table(a, n, db)
    case Cross(l, r) => Product(Rows(l, db, num), Rows(r, db, num))
    case Theta(l, r, on) => Filter(on, Product(Rows(l, db, num), Rows(r, db, num)), num)
  }

  /** The rows the selection keeps. */
  function Answer(p: Plan, db: Db, num: string -> real): seq<Row>
    requires FromParser(p)
  {
    Filter(p.src.cond, Rows(p.src.src, db, num), num)
  }

  /** The names the columns of a plan go by. */
  function Scope(f: Plan): set<string>
    requires Joins(f)
  {
    match f
    case Relation(n) => {n}
    case Alias(a, _) => {a}
    case Cross(l, r) => Scope(l) + Scope(r)
    case Theta(l, r, _) => Scope(l) + Scope(r)
  }

  /** No name is used twice. */
  predicate Distinct(f: Plan)
    requires Joins(f)
  {
    match f
    case Relation(_) => true
    case Alias(_, _) => true
    case Cross(l, r) => Distinct(l) && Distinct(r) && Scope(l) !! Scope(r)
    case Theta(l, r, _) => Distinct(l) && Distinct(r) && Scope(l) !! Scope(r)
  }

  ghost predicate Within(row: Row, names: set<string>) {
    forall k | k in row :: k.0 in names
  }

  ghost predicate AllWithin(rows: seq<Row>, names: set<string>) {
    forall i | 0 <= i < |rows| :: Within(rows[i], names)
  }

  lemma {:induction false} WithMore(x: Row, rows: seq<Row>, y: Row)
    ensures With(x, rows + [y]) == With(x, rows) + [x + y]
  {
    if rows == [] {
      assert [y][1..] == [] && [] + [y] == [y];
    } else {
      assert (rows + [y])[0] == rows[0] && (rows + [y])[1..] == rows[1..] + [y];
      WithMore(x, rows[1..], y);
    }
  }

  lemma {:induction false} ProductMore(l: seq<Row>, x: Row, r: seq<Row>)
    ensures Product(l + [x], r) == Product(l, r) + With(x, r)
  {
    if l == [] {
      assert [x][1..] == [] && [] + [x] == [x];
      assert With(x, r) + [] == With(x, r);
    } else {
      assert (l + [x])[0] == l[0] && (l + [x])[1..] == l[1..] + [x];
      ProductMore(l[1..], x, r);
    }
  }

  method ProcessCrossJoin(left: seq<Row>, right: seq<Row>) returns (result: seq<Row>)
    ensures result == Product(left, right)
  {
    result := [];
    var i := 0;
    while i < |left|
      invariant i <= |left| && result == Product(left[..i], right)
    {
      ghost var before := result;
      var j := 0;
      while j < |right|
        invariant j <= |right| && result == before + With(left[i], right[..j])
      {
        WithMore(left[i], right[..j], right[j]);
        assert right[..j + 1] == right[..j] + [right[j]];
        result := result + [left[i] + right[j]];
        j := j + 1;
      }
      assert right[..j] == right && left[..i + 1] == left[..i] + [left[i]];
      ProductMore(left[..i], left[i], right);
      i := i + 1;
    }
    assert left[..i] == left;
  }

  /** The theta join tests each merged row as it makes it. */
  method ProcessThetaJoin(left: seq<Row>, right: seq<Row>, on: Tree, num: string -> real) returns (result: seq<Row>)
    ensures result == Filter(on, Product(left, right), num)
  {
    hide Holds;
    result := [];
    var i := 0;
    while i < |left|
      invariant i <= |left| && result == Filter(on, Product(left[..i], right), num)
    {
      ghost var before := Product(left[..i], right);
      var j := 0;
      assert before + With(left[i], right[..0]) == before;
      while j < |right|
        invariant j <= |right| && result == Filter(on, before + With(left[i], right[..j]), num)
      {
        var merged := left[i] + right[j];
        WithMore(left[i], right[..j], right[j]);
        assert right[..j + 1] == right[..j] + [right[j]];
        FilterJoin(on, before + With(left[i], right[..j]), [merged], num);
        assert before + With(left[i], right[..j + 1]) == before + With(left[i], right[..j]) + [merged];
        FilterOne(on, merged, num);
        if Holds(on, merged, num) {
          result := result + [merged];
        }
        j := j + 1;
      }
      assert right[..j] == right && left[..i + 1] == left[..i] + [left[i]];
      ProductMore(left[..i], left[i], right);
      i := i + 1;
    }
    assert left[..i] == left;
  }

  lemma FilterOne(c: Tree, x: Row, num: string -> real)
    ensures Filter(c, [x], num) == if Holds(c, x, num) then [x] else []
  {
    assert [x][1..] == [];
  }

  // ---- filters over products ----

  lemma {:induction false} FilterJoin(c: Tree, a: seq<Row>, b: seq<Row>, num: string -> real)
    ensures Filter(c, a + b, num) == Filter(c, a, num) + Filter(c, b, num)
  {
    hide Holds;
    if a == [] {
      assert a + b == b;
    } else {
      assert (a + b)[0] == a[0] && (a + b)[1..] == a[1..] + b;
      FilterJoin(c, a[1..], b, num);
    }
  }

  lemma {:induction false} FilterTwice(c: Tree, d: Tree, rows: seq<Row>, num: string -> real)
    requires forall i | 0 <= i < |rows| :: Holds(d, rows[i], num) ==> Holds(c, rows[i], num)
    ensures Filter(d, Filter(c, rows, num), num) == Filter(d, rows, num)
  {
    if rows != [] {
      assert forall i | 0 <= i < |rows[1..]| :: rows[1..][i] == rows[i + 1];
      FilterTwice(c, d, rows[1..], num);
      var f := Filter(c, rows[1..], num);
      assert ([rows[0]] + f)[1..] == f;
    }
  }

  lemma {:induction false} FiltersCommute(c: Tree, d: Tree, rows: seq<Row>, num: string -> real)
    ensures Filter(c, Filter(d, rows, num), num) == Filter(d, Filter(c, rows, num), num)
  {
    if rows != [] {
      FiltersCommute(c, d, rows[1..], num);
      var f, g := Filter(c, rows[1..], num), Filter(d, rows[1..], num);
      assert ([rows[0]] + f)[1..] == f && ([rows[0]] + g)[1..] == g;
    }
  }

  /** The condition says the same of a row joined with any of the others as of the row alone. */
  ghost predicate Sees(c: Tree, x: Row, others: seq<Row>, num: string -> real) {
    forall i | 0 <= i < |others| :: Holds(c, x + others[i], num) == Holds(c, x, num)
  }

  lemma {:induction false} FilterWith(c: Tree, x: Row, rows: seq<Row>, num: string -> real)
    requires Sees(c, x, rows, num)
    ensures Filter(c, With(x, rows), num) == if Holds(c, x, num) then With(x, rows) else []
  {
    hide Holds;
    if rows != [] {
      assert forall i | 0 <= i < |rows[1..]| :: rows[1..][i] == rows[i + 1];
      FilterWith(c, x, rows[1..], num);
      var w := With(x, rows[1..]);
      assert ([x + rows[0]] + w)[1..] == w;
    }
  }

  lemma {:induction false} FilterProduct(c: Tree, l: seq<Row>, r: seq<Row>, num: string -> real)
    requires forall i | 0 <= i < |l| :: Sees(c, l[i], r, num)
    ensures Filter(c, Product(l, r), num) == Product(Filter(c, l, num), r)
  {
    hide Holds;
    if l != [] {
      assert forall i | 0 <= i < |l[1..]| :: l[1..][i] == l[i + 1];
      FilterProduct(c, l[1..], r, num);
      FilterJoin(c, With(l[0], r), Product(l[1..], r), num);
      FilterWith(c, l[0], r, num);
      var f := Filter(c, l[1..], num);
      assert ([l[0]] + f)[1..] == f;
    }
  }

  // ---- whose columns a row has ----

  lemma {:induction false} QualifiedWithin(t: string, rows: seq<map<string, Datum>>)
    ensures AllWithin(QualifyAll(t, rows), {t})
  {
    if rows != [] {
      QualifiedWithin(t, rows[1..]);
    }
  }

  lemma {:induction false} WithWithin(x: Row, rows: seq<Row>, names: set<string>)
    requires Within(x, names) && AllWithin(rows, names)
    ensures AllWithin(With(x, rows), names)
  {
    if rows != [] {
      assert AllWithin(rows[1..], names) && Within(rows[0], names);
      WithWithin(x, rows[1..], names);
    }
  }

  lemma {:induction false} ProductWithin(l: seq<Row>, r: seq<Row>, names: set<string>)
    requires AllWithin(l, names) && AllWithin(r, names)
    ensures AllWithin(Product(l, r), names)
  {
    if l != [] {
      assert AllWithin(l[1..], names) && Within(l[0], names);
      WithWithin(l[0], r, names);
      ProductWithin(l[1..], r, names);
    }
  }

  lemma {:induction false} FilterWithin(c: Tree, rows: seq<Row>, names: set<string>, num: string -> real)
    requires AllWithin(rows, names)
    ensures AllWithin(Filter(c, rows, num), names)
  {
    if rows != [] {
      assert AllWithin(rows[1..], names) && Within(rows[0], names);
      FilterWithin(c, rows[1..], names, num);
    }
  }

  lemma AllWithinMore(rows: seq<Row>, names: set<string>, more: set<string>)
    requires AllWithin(rows, names) && names <= more
    ensures AllWithin(rows, more)
  {
    forall i | 0 <= i < |rows| ensures Within(rows[i], more) {
      assert Within(rows[i], names);
    }
  }

  lemma JoinWithin(l: seq<Row>, r: seq<Row>, names: set<string>, others: set<string>)
    requires AllWithin(l, names) && AllWithin(r, others)
    ensures AllWithin(Product(l, r), names + others)
  {
    AllWithinMore(l, names, names + others);
    AllWithinMore(r, others, names + others);
    ProductWithin(l, r, names + others);
  }

  lemma {:induction false} RowsWithin(f: Plan, db: Db, num: string -> real)
    requires Joins(f)
    ensures AllWithin(Rows(f, db, num), Scope(f))
  {
    match f
    case Relation(n) =>
      if n in db { QualifiedWithin(n, db[n]); }
    case Alias(a, n) =>
      if n in db { QualifiedWithin(a, db[n]); }
    case Cross(l, r) =>
      RowsWithin(l, db, num);
      RowsWithin(r, db, num);
      JoinWithin(Rows(l, db, num), Rows(r, db, num), Scope(l), Scope(r));
    case Theta(l, r, on) =>
      RowsWithin(l, db, num);
      RowsWithin(r, db, num);
      JoinWithin(Rows(l, db, num), Rows(r, db, num), Scope(l), Scope(r));
      FilterWithin(on, Product(Rows(l, db, num), Rows(r, db, num)), Scope(f), num);
  }

  // ---- an equality and the scope it is put in ----

  predicate Both(c: Tree, names: set<string>)
    requires JoinEquality(c)
  {
    KeyOf(c.childs[0]).0 in names && KeyOf(c.childs[1]).0 in names
  }

  predicate Neither(c: Tree, names: set<string>)
    requires JoinEquality(c)
  {
    KeyOf(c.childs[0]).0 !in names && KeyOf(c.childs[1]).0 !in names
  }

  predicate Balanced(c: Tree, names: set<string>)
    requires JoinEquality(c)
  {
    Both(c, names) || Neither(c, names)
  }

  /** Every row has the columns of the equality that belong to its scope. */
  ghost predicate Present(c: Tree, rows: seq<Row>, names: set<string>)
    requires JoinEquality(c)
  {
    forall i | 0 <= i < |rows| ::
      && (KeyOf(c.childs[0]).0 in names ==> KeyOf(c.childs[0]) in rows[i])
      && (KeyOf(c.childs[1]).0 in names ==> KeyOf(c.childs[1]) in rows[i])
  }

  lemma BothSees(c: Tree, l: seq<Row>, r: seq<Row>, names: set<string>, others: set<string>, num: string -> real)
    requires JoinEquality(c) && Both(c, names) && AllWithin(r, others) && names !! others
    ensures forall i | 0 <= i < |l| :: Sees(c, l[i], r, num)
  {
    forall i, j | 0 <= i < |l| && 0 <= j < |r| ensures Holds(c, l[i] + r[j], num) == Holds(c, l[i], num) {
      assert Within(r[j], others);
      var a, b := KeyOf(c.childs[0]), KeyOf(c.childs[1]);
      assert a !in r[j] && b !in r[j];
      assert Get(l[i] + r[j], a) == Get(l[i], a) && Get(l[i] + r[j], b) == Get(l[i], b);
    }
  }

  lemma {:induction false} NeitherFilters(c: Tree, rows: seq<Row>, names: set<string>, num: string -> real)
    requires JoinEquality(c) && Neither(c, names) && AllWithin(rows, names)
    ensures Filter(c, rows, num) == rows
  {
    if rows != [] {
      assert AllWithin(rows[1..], names) && Within(rows[0], names);
      NeitherFilters(c, rows[1..], names, num);
      assert rows == [rows[0]] + rows[1..];
    }
  }

  lemma {:induction false} OneSideFilters(c: Tree, rows: seq<Row>, names: set<string>, num: string -> real)
    requires JoinEquality(c) && !Balanced(c, names) && AllWithin(rows, names) && Present(c, rows, names)
    ensures Filter(c, rows, num) == []
  {
    if rows != [] {
      assert AllWithin(rows[1..], names) && Within(rows[0], names);
      assert forall i | 0 <= i < |rows[1..]| :: rows[1..][i] == rows[i + 1];
      OneSideFilters(c, rows[1..], names, num);
    }
  }

  // ---- the rewrite ----

  /** The cross join that is converted. */
  function Converted(f: Plan): (x: Plan)
    requires Joins(f) && Crosses(f) > 0
    ensures x.Cross? && Joins(x) && Scope(x) <= Scope(f)
  {
    if f.Theta? then
      assert Crosses(f.r) == 0;
      Converted(f.l)
    else f
  }

  lemma {:induction false} FilterAgain(c: Tree, rows: seq<Row>, num: string -> real)
    ensures Filter(c, Filter(c, rows, num), num) == Filter(c, rows, num)
  {
    hide Holds;
    FilterTwice(c, c, rows, num);
  }

  /** With both columns in the scope of the converted join, or at the top, it is as if the rows were filtered
      at the end. */
  lemma {:induction false} ConvertFilters(f: Plan, c: Tree, db: Db, num: string -> real)
    requires Joins(f) && Distinct(f) && Crosses(f) > 0 && JoinEquality(c)
    requires f.Cross? || Both(c, Scope(Converted(f)))
    ensures Joins(Convert(f, c)) && Rows(Convert(f, c), db, num) == Filter(c, Rows(f, db, num), num)
  {
    hide Holds;
    ConvertCounts(f, c);
    if !f.Cross? {
      ConvertFilters(f.l, c, db, num);
      var was, r := Rows(f.l, db, num), Rows(f.r, db, num);
      RowsWithin(f.r, db, num);
      BothSees(c, was, r, Scope(f.l), Scope(f.r), num);
      FilterProduct(c, was, r, num);
      FiltersCommute(c, f.on, Product(was, r), num);
    }
  }

  /** With neither column in its scope the rows stay as they are. */
  lemma {:induction false} ConvertStays(f: Plan, c: Tree, db: Db, num: string -> real)
    requires Joins(f) && Crosses(f) > 0 && JoinEquality(c)
    requires Neither(c, Scope(Converted(f)))
    ensures Joins(Convert(f, c)) && Rows(Convert(f, c), db, num) == Rows(f, db, num)
  {
    ConvertCounts(f, c);
    if f.Cross? {
      RowsWithin(f, db, num);
      NeitherFilters(c, Product(Rows(f.l, db, num), Rows(f.r, db, num)), Scope(f), num);
    } else {
      ConvertStays(f.l, c, db, num);
    }
  }

  /** With one of them only, no row is left. */
  lemma {:induction false} ConvertEmpties(f: Plan, c: Tree, db: Db, num: string -> real)
    requires Joins(f) && Crosses(f) > 0 && JoinEquality(c) && HasColumns(f, c, db)
    requires !Balanced(c, Scope(Converted(f)))
    ensures Joins(Convert(f, c)) && Rows(Convert(f, c), db, num) == []
  {
    ConvertCounts(f, c);
    if f.Cross? {
      RowsWithin(f, db, num);
      RowsPresent(f, c, db, num);
      OneSideFilters(c, Product(Rows(f.l, db, num), Rows(f.r, db, num)), Scope(f), num);
    } else {
      ConvertEmpties(f.l, c, db, num);
    }
  }

  // ---- columns there are ----

  /** The tables have those columns of the equality that are said to be theirs. */
  ghost predicate HasColumns(f: Plan, c: Tree, db: Db)
    requires Joins(f) && JoinEquality(c)
  {
    match f
    case Relation(n) => Present(c, Table(n, n, db), {n})
    case Alias(a, n) => Present(c, Table(a, n, db), {a})
    case Cross(l, r) => HasColumns(l, c, db) && HasColumns(r, c, db)
    case Theta(l, r, _) => HasColumns(l, c, db) && HasColumns(r, c, db)
  }

  ghost predicate Has(c: Tree, row: Row, names: set<string>)
    requires JoinEquality(c)
  {
    && (KeyOf(c.childs[0]).0 in names ==> KeyOf(c.childs[0]) in row)
    && (KeyOf(c.childs[1]).0 in names ==> KeyOf(c.childs[1]) in row)
  }

  lemma {:induction false} WithPresent(c: Tree, x: Row, rows: seq<Row>, names: set<string>, others: set<string>)
    requires JoinEquality(c) && Has(c, x, names) && Present(c, rows, others)
    ensures Present(c, With(x, rows), names + others)
  {
    if rows != [] {
      assert forall i | 0 <= i < |rows[1..]| :: rows[1..][i] == rows[i + 1];
      WithPresent(c, x, rows[1..], names, others);
    }
  }

  lemma {:induction false} ProductPresent(c: Tree, l: seq<Row>, r: seq<Row>, names: set<string>, others: set<string>)
    requires JoinEquality(c) && Present(c, l, names) && Present(c, r, others)
    ensures Present(c, Product(l, r), names + others)
  {
    if l != [] {
      assert forall i | 0 <= i < |l[1..]| :: l[1..][i] == l[i + 1];
      WithPresent(c, l[0], r, names, others);
      ProductPresent(c, l[1..], r, names, others);
    }
  }

  lemma {:induction false} FilterPresent(c: Tree, d: Tree, rows: seq<Row>, names: set<string>, num: string -> real)
    requires JoinEquality(c) && Present(c, rows, names)
    ensures Present(c, Filter(d, rows, num), names)
  {
    hide Holds;
    if rows != [] {
      assert forall i | 0 <= i < |rows[1..]| :: rows[1..][i] == rows[i + 1];
      FilterPresent(c, d, rows[1..], names, num);
    }
  }

  lemma {:induction false} RowsPresent(f: Plan, c: Tree, db: Db, num: string -> real)
    requires Joins(f) && JoinEquality(c) && HasColumns(f, c, db)
    ensures Present(c, Rows(f, db, num), Scope(f))
  {
    hide Present;
    match f
    case Relation(n) =>
    case Alias(a, n) =>
    case Cross(l, r) =>
      RowsPresent(l, c, db, num);
      RowsPresent(r, c, db, num);
      ProductPresent(c, Rows(l, db, num), Rows(r, db, num), Scope(l), Scope(r));
    case Theta(l, r, on) =>
      RowsPresent(l, c, db, num);
      RowsPresent(r, c, db, num);
      ProductPresent(c, Rows(l, db, num), Rows(r, db, num), Scope(l), Scope(r));
      FilterPresent(c, on, Product(Rows(l, db, num), Rows(r, db, num)), Scope(f), num);
  }

  // ---- all iterations ----

  /** The scopes of the cross joins, in the order in which they are converted. */
  function CrossScopes(f: Plan): (s: seq<set<string>>)
    requires Joins(f)
    ensures |s| == Crosses(f) && (s != [] ==> s[0] == Scope(Converted(f)))
  {
    match f
    case Relation(_) => []
    case Alias(_, _) => []
    case Cross(l, r) => assert Crosses(r) == 0; [Scope(f)] + CrossScopes(l)
    case Theta(l, r, _) => assert Crosses(r) == 0; CrossScopes(l)
  }

  /** One of the first `n` joins converted, not the top of the plan, has one of the columns in its scope only. */
  predicate Empties(f: Plan, c: Tree, n: nat)
    requires Joins(f) && JoinEquality(c)
  {
    exists i | 0 <= i < n && i < |CrossScopes(f)| :: !(i == 0 && f.Cross?) && !Balanced(c, CrossScopes(f)[i])
  }

  /** One of them is the top of the plan, or has both. */
  predicate Demands(f: Plan, c: Tree, n: nat)
    requires Joins(f) && JoinEquality(c)
  {
    exists i | 0 <= i < n && i < |CrossScopes(f)| :: (i == 0 && f.Cross?) || Both(c, CrossScopes(f)[i])
  }

  lemma {:induction false} ConvertNext(f: Plan, c: Tree, db: Db)
    requires Joins(f) && Distinct(f) && JoinEquality(c) && Crosses(f) > 0
    ensures var f' := Convert(f, c);
            && Joins(f') && Distinct(f') && Scope(f') == Scope(f) && f'.Theta? && CrossScopes(f') == CrossScopes(f)[1..]
            && (HasColumns(f, c, db) ==> HasColumns(f', c, db))
  {
    hide Present;
    ConvertCounts(f, c);
    if f.Theta? {
      assert Crosses(f.r) == 0;
      ConvertNext(f.l, c, db);
    } else {
      assert [Scope(f)] + CrossScopes(f.l) == CrossScopes(f);
    }
  }

  /** The conditions for `n` conversions, from those for the first and the others. */
  lemma SplitConditions(f: Plan, c: Tree, n: nat)
    requires Joins(f) && Distinct(f) && JoinEquality(c) && Crosses(f) > 0 && n > 0
    requires var f' := Convert(f, c); Joins(f') && f'.Theta? && CrossScopes(f') == CrossScopes(f)[1..]
    ensures var x, f' := Scope(Converted(f)), Convert(f, c);
            && (Empties(f, c, n) <==> (!f.Cross? && !Balanced(c, x)) || Empties(f', c, n - 1))
            && (Demands(f, c, n) <==> f.Cross? || Both(c, x) || Demands(f', c, n - 1))
  {
    var s, s', f' := CrossScopes(f), CrossScopes(f)[1..], Convert(f, c);
    assert forall i | 0 <= i < |s'| :: s'[i] == s[i + 1];
    if Empties(f', c, n - 1) {
      var i :| 0 <= i < n - 1 && i < |s'| && !Balanced(c, s'[i]);
      assert !Balanced(c, s[i + 1]);
    }
    if Empties(f, c, n) {
      var i :| 0 <= i < n && i < |s| && !(i == 0 && f.Cross?) && !Balanced(c, s[i]);
      assert i > 0 ==> !Balanced(c, s'[i - 1]);
    }
    if Demands(f', c, n - 1) {
      var i :| 0 <= i < n - 1 && i < |s'| && Both(c, s'[i]);
      assert Both(c, s[i + 1]);
    }
    if Demands(f, c, n) {
      var i :| 0 <= i < n && i < |s| && ((i == 0 && f.Cross?) || Both(c, s[i]));
      assert i > 0 ==> Both(c, s'[i - 1]);
    } else {
      assert !((0 == 0 && f.Cross?) || Both(c, s[0]));
    }
    assert !f.Cross? && !Balanced(c, s[0]) ==> Empties(f, c, n);
  }

  /** What `n` conversions do to the answer: nothing is left if one of them has one column only, else the
      rows on which the condition does not hold go if one of them demands it. */
  function Becomes(f: Plan, c: Tree, n: nat, rows: seq<Row>, num: string -> real): seq<Row>
    requires Joins(f) && JoinEquality(c)
  {
    if Empties(f, c, n) then [] else if Demands(f, c, n) then Filter(c, rows, num) else rows
  }

  lemma CombineAnswer(p: Plan, db: Db, num: string -> real)
    requires FromParser(p) && Distinct(p.src.src) && Crosses(p.src.src) > 0
    requires Find(p.src).Some? && HasColumns(p.src.src, Find(p.src).value, db)
    ensures FromParser(Combine(p))
    ensures var f, c := p.src.src, Find(p.src).value;
            Answer(Combine(p), db, num) ==
              if f.Cross? || Both(c, Scope(Converted(f))) then Filter(c, Answer(p, db, num), num)
              else if Neither(c, Scope(Converted(f))) then Answer(p, db, num)
              else []
  {
    hide Holds, HasColumns, Distinct;
    CombineConverts(p);
    CrossesBelow(p);
    var f, c := p.src.src, Find(p.src).value;
    if f.Cross? || Both(c, Scope(Converted(f))) {
      ConvertFilters(f, c, db, num);
      FiltersCommute(p.src.cond, c, Rows(f, db, num), num);
    } else if Neither(c, Scope(Converted(f))) {
      ConvertStays(f, c, db, num);
    } else {
      ConvertEmpties(f, c, db, num);
    }
  }

  lemma {:induction false} IteratedAnswer(p: Plan, n: nat, db: Db, num: string -> real)
    requires FromParser(p) && Distinct(p.src.src)
    requires Find(p.src).Some? && HasColumns(p.src.src, Find(p.src).value, db)
    ensures FromParser(Iterate(p, n))
    ensures Answer(Iterate(p, n), db, num) == Becomes(p.src.src, Find(p.src).value, n, Answer(p, db, num), num)
    decreases n
  {
    hide Holds, HasColumns, Distinct, Answer, CrossScopes, Empties, Demands, Find, Convert;
    var f, c, was := p.src.src, Find(p.src).value, Answer(p, db, num);
    CombineConverts(p);
    CrossesBelow(p);
    if n == 0 || Crosses(f) == 0 {
      NoConversion(f, c, n);
    } else {
      ConvertNext(f, c, db);
      CombineAnswer(p, db, num);
      IteratedAnswer(Combine(p), n - 1, db, num);
      SplitConditions(f, c, n);
      FilterAgain(c, was, num);
      assert Filter(c, [], num) == [];
    }
  }

  lemma NoConversion(f: Plan, c: Tree, n: nat)
    requires Joins(f) && JoinEquality(c) && (n == 0 || Crosses(f) == 0)
    ensures !Empties(f, c, n) && !Demands(f, c, n)
  {
  }

  lemma CrossesBelow(p: Plan)
    requires FromParser(p)
    ensures Crosses(p) == Crosses(p.src.src)
  {
    assert Crosses(p) == Crosses(p.src);
  }

  ghost predicate AllHold(c: Tree, rows: seq<Row>, num: string -> real) {
    forall i | 0 <= i < |rows| :: Holds(c, rows[i], num)
  }

  lemma {:induction false} FilterShorter(c: Tree, rows: seq<Row>, num: string -> real)
    ensures |Filter(c, rows, num)| <= |rows| && (Filter(c, rows, num) == rows <==> AllHold(c, rows, num))
  {
    hide Holds;
    if rows != [] {
      FilterShorter(c, rows[1..], num);
      assert rows == [rows[0]] + rows[1..];
      assert forall i | 0 <= i < |rows[1..]| :: rows[1..][i] == rows[i + 1];
      if Filter(c, rows, num) == rows {
        assert Filter(c, rows, num)[1..] == rows[1..];
        assert Filter(c, rows[1..], num) == rows[1..];
        assert forall i | 0 < i < |rows| :: rows[i] == rows[1..][i - 1];
      }
    }
  }

  /** The optimizer, however many iterations it takes and wherever it found the equality: the answer stays,
      row for row in order, exactly if either some converted join below the top has just one of the columns
      in its scope and there was no answer; or none has, and the equality holds on all the rows of the
      answer or no converted join demands it. */
  lemma OptimizerKeepsAnswerIff(p: Plan, n: nat, db: Db, num: string -> real)
    requires FromParser(p) && Distinct(p.src.src)
    requires Find(p.src).Some? ==> HasColumns(p.src.src, Find(p.src).value, db)
    ensures FromParser(Iterate(p, n))
    ensures Answer(Iterate(p, n), db, num) == Answer(p, db, num) <==>
              Find(p.src).None? ||
              (var f, c, was := p.src.src, Find(p.src).value, Answer(p, db, num);
               if Empties(f, c, n) then was == [] else Demands(f, c, n) ==> AllHold(c, was, num))
  {
    hide Holds, HasColumns, Distinct, Answer, Empties, Demands;
    if Find(p.src).None? {
      CombineConverts(p);
    } else {
      IteratedAnswer(p, n, db, num);
      FilterShorter(Find(p.src).value, Answer(p, db, num), num);
    }
  }

  // ---- where the equality holds on all rows ----

  lemma {:induction false} FilterHolds(cond: Tree, c: Tree, rows: seq<Row>, num: string -> real)
    requires forall row | Holds(cond, row, num) :: Holds(c, row, num)
    ensures AllHold(c, Filter(cond, rows, num), num)
  {
    hide Holds;
    if rows != [] {
      FilterHolds(cond, c, rows[1..], num);
    }
  }

  /** A WHERE that demands the equality: the answer stays exactly if no converted join below the top has just
      one of the columns in its scope, or there was none. */
  lemma DemandedKeepsAnswerIff(p: Plan, n: nat, db: Db, num: string -> real)
    requires FromParser(p) && Distinct(p.src.src) && Find(p.src).Some?
    requires HasColumns(p.src.src, Find(p.src).value, db) && Conjunct(Find(p.src).value, p.src.cond)
    ensures FromParser(Iterate(p, n))
    ensures Answer(Iterate(p, n), db, num) == Answer(p, db, num)
            <==> Answer(p, db, num) == [] || !Empties(p.src.src, Find(p.src).value, n)
  {
    hide Holds, HasColumns, Distinct, Empties, Demands, Conjunct;
    var c, cond := Find(p.src).value, p.src.cond;
    OptimizerKeepsAnswerIff(p, n, db, num);
    forall row | Holds(cond, row, num) ensures Holds(c, row, num) {
      ConjunctHolds(c, cond, row, num);
    }
    FilterHolds(cond, c, Rows(p.src.src, db, num), num);
  }

  /** The equality is demanded by the ON condition of one of the joins, which has both columns in its scope. */
  ghost predicate OnDemands(f: Plan, c: Tree)
    requires Joins(f) && JoinEquality(c)
  {
    match f
    case Relation(_) => false
    case Alias(_, _) => false
    case Cross(l, _) => OnDemands(l, c) && Both(c, Scope(l))
    case Theta(l, _, on) => Conjunct(c, on) || (OnDemands(l, c) && Both(c, Scope(l)))
  }

  lemma {:induction false} ProductHolds(c: Tree, l: seq<Row>, r: seq<Row>, num: string -> real)
    requires AllHold(c, l, num) && forall i | 0 <= i < |l| :: Sees(c, l[i], r, num)
    ensures AllHold(c, Product(l, r), num)
  {
    hide Holds;
    FilterShorter(c, l, num);
    FilterProduct(c, l, r, num);
    FilterShorter(c, Product(l, r), num);
  }

  lemma {:induction false} OnHolds(f: Plan, c: Tree, db: Db, num: string -> real)
    requires Joins(f) && Distinct(f) && JoinEquality(c) && OnDemands(f, c)
    ensures AllHold(c, Rows(f, db, num), num)
  {
    hide Holds, Conjunct;
    var l, r := Rows(f.l, db, num), Rows(f.r, db, num);
    if OnDemands(f.l, c) && Both(c, Scope(f.l)) {
      OnHolds(f.l, c, db, num);
      RowsWithin(f.r, db, num);
      BothSees(c, l, r, Scope(f.l), Scope(f.r), num);
      ProductHolds(c, l, r, num);
      if f.Theta? {
        FilterKeepsHolding(f.on, c, Product(l, r), num);
      }
    } else {
      forall row | Holds(f.on, row, num) ensures Holds(c, row, num) {
        ConjunctHolds(c, f.on, row, num);
      }
      FilterHolds(f.on, c, Product(l, r), num);
    }
  }

  lemma {:induction false} FilterKeepsHolding(cond: Tree, c: Tree, rows: seq<Row>, num: string -> real)
    requires AllHold(c, rows, num)
    ensures AllHold(c, Filter(cond, rows, num), num)
  {
    hide Holds;
    if rows != [] {
      assert forall i | 0 <= i < |rows[1..]| :: rows[1..][i] == rows[i + 1];
      FilterKeepsHolding(cond, c, rows[1..], num);
    }
  }

  /** The same for an equality found in an ON condition. */
  lemma OnKeepsAnswerIff(p: Plan, n: nat, db: Db, num: string -> real)
    requires FromParser(p) && Distinct(p.src.src) && Find(p.src).Some?
    requires HasColumns(p.src.src, Find(p.src).value, db) && OnDemands(p.src.src, Find(p.src).value)
    ensures FromParser(Iterate(p, n))
    ensures Answer(Iterate(p, n), db, num) == Answer(p, db, num)
            <==> Answer(p, db, num) == [] || !Empties(p.src.src, Find(p.src).value, n)
  {
    hide Holds, HasColumns, Distinct, Empties, Demands, OnDemands;
    var c := Find(p.src).value;
    OptimizerKeepsAnswerIff(p, n, db, num);
    OnHolds(p.src.src, c, db, num);
    FilterKeepsHolding(p.src.cond, c, Rows(p.src.src, db, num), num);
  }

  // ---- instances ----

  const A_Y := Column(Some("a"), "y")
  const B_X := Column(Some("b"), "x")
  const C_X := Column(Some("c"), "x")
  const ONE := Amount(1.0)
  const TWO := Amount(2.0)

  function Equal(a: Tree, b: Tree): Tree {
    Op("=", [a, b])
  }

  lemma OneRow(name: string, column: string, v: Datum, db: Db)
    requires name in db && db[name] == [map[column := v]]
    ensures Table(name, name, db) == [map[(name, column) := v]]
  {
    var rows := [map[column := v]];
    assert rows[1..] == [];
    var read := QualifyAll(name, rows);
    forall k ensures k in read[0] <==> k == (name, column) {
    }
    assert read[0] == map[(name, column) := v];
    assert QualifyAll(name, rows[1..]) == [] && |read| == 1;
  }

  lemma OneProduct(x: Row, y: Row)
    ensures Product([x], [y]) == [x + y]
  {
    assert [x][1..] == [] && [y][1..] == [];
    assert With(x, [y]) == [x + y] && [x + y] + [] == [x + y];
  }

  // One row of each table: a.y = 1, b.x = 2, c.x = 2.
  const TABLES: Db := map["a" := [map["y" := ONE]], "b" := [map["x" := TWO]], "c" := [map["x" := TWO]]]
  const ROW_AB: Row := map[("a", "y") := ONE] + map[("b", "x") := TWO]
  const ROW_ABC: Row := ROW_AB + map[("c", "x") := TWO]

  lemma RowOfTwo(num: string -> real)
    ensures Rows(Cross(Relation("a"), Relation("b")), TABLES, num) == [ROW_AB] && Table("c", "c", TABLES) == [map[("c", "x") := TWO]]
  {
    OneRow("a", "y", ONE, TABLES);
    OneRow("b", "x", TWO, TABLES);
    OneRow("c", "x", TWO, TABLES);
    OneProduct(map[("a", "y") := ONE], map[("b", "x") := TWO]);
  }

  lemma TablesHave(c: Tree)
    requires c == Equal(B_X, C_X) || c == Equal(A_Y, B_X)
    ensures HasColumns(Relation("a"), c, TABLES) && HasColumns(Relation("b"), c, TABLES) && HasColumns(Relation("c"), c, TABLES)
  {
    OneRow("a", "y", ONE, TABLES);
    OneRow("b", "x", TWO, TABLES);
    OneRow("c", "x", TWO, TABLES);
  }

  /** The row meets b.x = c.x and a.y = a.y, but not a.y = b.x. */
  lemma RowsHold(num: string -> real)
    ensures Holds(Equal(B_X, C_X), ROW_ABC, num) && Holds(Equal(A_Y, A_Y), ROW_ABC, num)
    ensures Holds(Equal(A_Y, A_Y), ROW_AB, num) && !Holds(Equal(A_Y, B_X), ROW_AB, num)
  {
    assert ROW_AB[("a", "y")] == ONE && ROW_AB[("b", "x")] == TWO;
    assert ROW_ABC[("c", "x")] == TWO && ROW_ABC[("b", "x")] == TWO && ROW_ABC[("a", "y")] == ONE;
  }

  const ON_QUERY := Project([], Select(Theta(Cross(Relation("a"), Relation("b")), Relation("c"), Equal(B_X, C_X)), Equal(A_Y, A_Y)))

  lemma OnFindsFirst()
    ensures Find(ON_QUERY.src) == Some(Equal(B_X, C_X)) && FromParser(ON_QUERY) && Distinct(ON_QUERY.src.src)
    ensures Crosses(ON_QUERY.src.src) == 1 && Scope(Converted(ON_QUERY.src.src)) == {"a", "b"}
  {
  }

  /** FROM a, b JOIN c ON b.x = c.x: the condition of the join is put on the cross join of a and b, where c is
      not in scope, and the one row of the answer is gone. */
  lemma OnConditionEmpties(num: string -> real)
    ensures FromParser(ON_QUERY) && FromParser(Combine(ON_QUERY))
    ensures Answer(ON_QUERY, TABLES, num) == [ROW_ABC] && Answer(Combine(ON_QUERY), TABLES, num) == []
  {
    hide Find, FindEquality, FindAmong, Combine, Holds, Table, Product, Filter, Distinct, Converted;
    OnFindsFirst();
    RowOfTwo(num);
    OneProduct(ROW_AB, map[("c", "x") := TWO]);
    var f := ON_QUERY.src.src;
    assert Rows(f.r, TABLES, num) == [map[("c", "x") := TWO]];
    assert Rows(f, TABLES, num) == Filter(f.on, [ROW_ABC], num);
    RowsHold(num);
    FilterOne(Equal(B_X, C_X), ROW_ABC, num);
    FilterOne(Equal(A_Y, A_Y), ROW_ABC, num);
    TablesHave(Equal(B_X, C_X));
    CombineAnswer(ON_QUERY, TABLES, num);
  }

  const OR_QUERY := Project([], Select(Cross(Relation("a"), Relation("b")), Op("OR", [Equal(A_Y, B_X), Equal(A_Y, A_Y)])))

  lemma OrFindsFirst()
    ensures Find(OR_QUERY.src) == Some(Equal(A_Y, B_X)) && FromParser(OR_QUERY) && Distinct(OR_QUERY.src.src)
  {
    var cond := OR_QUERY.src.cond;
    assert cond.childs[0] == Equal(A_Y, B_X) && JoinEquality(cond.childs[0]) && !JoinEquality(cond);
    assert FindEquality(cond.childs[0]) == Some(cond.childs[0]);
    assert FindAmong(cond.childs) == Some(cond.childs[0]);
  }

  lemma OrHolds(num: string -> real)
    ensures Holds(OR_QUERY.src.cond, ROW_AB, num)
  {
    RowsHold(num);
    assert OR_QUERY.src.cond.childs[1] == Equal(A_Y, A_Y);
  }

  /** An equality under OR is taken for a join condition, and the row the other side lets pass is gone. */
  lemma OrConditionLoses(num: string -> real)
    ensures FromParser(OR_QUERY) && FromParser(Combine(OR_QUERY))
    ensures Answer(OR_QUERY, TABLES, num) == [ROW_AB] && Answer(Combine(OR_QUERY), TABLES, num) == []
  {
    hide Find, FindEquality, FindAmong, Combine, Holds, Table, Product, Filter, Distinct;
    OrFindsFirst();
    RowOfTwo(num);
    OrHolds(num);
    RowsHold(num);
    FilterOne(OR_QUERY.src.cond, ROW_AB, num);
    FilterOne(Equal(A_Y, B_X), ROW_AB, num);
    TablesHave(Equal(A_Y, B_X));
    CombineAnswer(OR_QUERY, TABLES, num);
  }
}
