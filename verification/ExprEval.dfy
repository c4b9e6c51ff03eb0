/** Assignments: an expression is flattened to a list, and the list evaluated in two passes. */
module ExprEval {
  import opened Wrappers
  import opened ExprGrammar
  import opened ExprRoundTrip

  // ---- flattening ----

  /** A list item: a number, by its text, or a string, which is an operator or a column name. */
  datatype Item = Literal(text: string) | Word(word: string)

  function ColumnName(t: Tree): string
    requires t.Column?
  {
    if t.table.Some? then t.table.value + "." + t.name else t.name
  }

  /** Operands in order with the operator after the first; parentheses leave no trace. */
  function Flatten(t: Tree): seq<Item> {
    match t
    case Num(s) => [Literal(s)]
    case Text(s) => [Word(s)]
    case Column(_, _) => [Word(ColumnName(t))]
    case Op(o, cs) =>
      if cs == [] then []
      else if |cs| == 1 then Flatten(cs[0]) + [Word(o)]
      else Flatten(cs[0]) + ([Word(o)] + Flatten(cs[1]))
  }

  // ---- evaluation ----

  const MULTIPLIERS := {"*", "/"}
  const ADDERS := {"+", "-"}

  datatype Cell = Value(v: real) | Symbol(s: string)

  type Row = map<string, real>

  /** Names become the row's numbers; a name the row has no number for is an error. */
  function Resolve(items: seq<Item>, row: Row, num: string -> real): Option<seq<Cell>> {
    if items == [] then Some([])
    else
      var first := ResolveOne(items[0], row, num);
      var rest := Resolve(items[1..], row, num);
      if first.None? || rest.None? then None else Some([first.value] + rest.value)
  }

  function ResolveOne(item: Item, row: Row, num: string -> real): Option<Cell> {
    match item
    case Literal(s) => Some(Value(num(s)))
    case Word(s) =>
      if s in MULTIPLIERS + ADDERS then Some(Symbol(s)) else if s in row then Some(Value(row[s])) else None
  }

  function Apply(l: real, o: string, r: real): Option<real> {
    if o == "*" then Some(l * r)
    else if o == "/" then (if r == 0.0 then None else Some(l / r))
    else if o == "+" then Some(l + r)
    else Some(l - r)
  }

  function ApplyCells(l: Cell, o: string, r: Cell): Option<Cell> {
    if l.Symbol? || r.Symbol? then None
    else
      var v := Apply(l.v, o, r.v);
      if v.None? then None else Some(Value(v.value))
  }

  /** One pass, from position `i`: operators of the given kind are applied where they stand. */
  function Pass(xs: seq<Cell>, i: nat, ops: set<string>): Option<seq<Cell>>
    requires i >= 1
    decreases if i <= |xs| then |xs| - i else 0
  {
    if i + 1 >= |xs| then Some(xs)
    else if xs[i].Symbol? && xs[i].s in ops then
      var r := ApplyCells(xs[i - 1], xs[i].s, xs[i + 1]);
      if r.None? then None else Pass(xs[..i - 1] + ([r.value] + xs[i + 2..]), i, ops)
    else Pass(xs, i + 2, ops)
  }

  function Evaluated(items: seq<Item>, row: Row, num: string -> real): Option<Cell> {
    var resolved := Resolve(items, row, num);
    if items == [] || resolved.None? then None
    else
      var first := Pass(resolved.value, 1, MULTIPLIERS);
      if first.None? then None
      else
        var second := Pass(first.value, 1, ADDERS);
        if second.None? || |second.value| != 1 then None else Some(second.value[0])
  }

  method OnePass(xs: seq<Cell>, ops: set<string>) returns (r: Option<seq<Cell>>)
    ensures r == Pass(xs, 1, ops)
  {
    var resolved, i := xs, 1;
    while i + 1 < |resolved|
      invariant i >= 1 && Pass(resolved, i, ops) == Pass(xs, 1, ops)
      decreases |resolved| - i
    {
      if resolved[i].Symbol? && resolved[i].s in ops {
        var result := ApplyCells(resolved[i - 1], resolved[i].s, resolved[i + 1]);
        if result.None? {
          return None;
        }
        resolved := resolved[..i - 1] + ([result.value] + resolved[i + 2..]);
      } else {
        i := i + 2;
      }
    }
    r := Some(resolved);
  }

  method EvaluateExpression(items: seq<Item>, row: Row, num: string -> real) returns (r: Option<Cell>)
    ensures r == Evaluated(items, row, num)
  {
    if items == [] {
      return None;
    }
    var resolved: seq<Cell>, i := [], 0;
    while i < |items|
      invariant i <= |items|
      invariant var rest, all := Resolve(items[i..], row, num), Resolve(items, row, num);
                (rest.Some? <==> all.Some?) && (rest.Some? ==> resolved + rest.value == all.value)
    {
      var cell := ResolveOne(items[i], row, num);
      assert items[i..][0] == items[i] && items[i..][1..] == items[i + 1..];
      if cell.None? {
        return None;
      }
      ghost var rest := Resolve(items[i + 1..], row, num);
      assert rest.Some? ==> resolved + ([cell.value] + rest.value) == resolved + [cell.value] + rest.value;
      resolved := resolved + [cell.value];
      i := i + 1;
    }
    assert items[i..] == [] && resolved + [] == resolved;
    var first := OnePass(resolved, MULTIPLIERS);
    if first.None? {
      return None;
    }
    var second := OnePass(first.value, ADDERS);
    if second.None? || |second.value| != 1 {
      return None;
    }
    r := Some(second.value[0]);
  }

  // ---- what an expression means ----

  predicate Operators(o: string) {
    o in MULTIPLIERS || o in ADDERS
  }

  /** Trees over + - * / with numbers and columns at the leaves. */
  predicate Arithmetic(t: Tree)
    decreases t
  {
    match t
    case Num(_) => true
    case Column(_, _) => !Operators(ColumnName(t))
    case Text(_) => false
    case Op(o, cs) => Operators(o) && |cs| == 2 && Arithmetic(cs[0]) && Arithmetic(cs[1])
  }

  /** Rendered without parentheses. */
  predicate Bare(t: Tree)
    decreases t
  {
    t.Op? && |t.childs| == 2 ==>
      && Bare(t.childs[0]) && Bare(t.childs[1])
      && Level(t.childs[0]) >= Level(t) && Level(t.childs[1]) > Level(t)
  }

  /** The value of the tree; none if a column is missing or a divisor is zero. */
  function Meaning(t: Tree, row: Row, num: string -> real): Option<real>
    requires Arithmetic(t)
    decreases t
  {
    match t
    case Num(s) => Some(num(s))
    case Column(_, _) => if ColumnName(t) in row then Some(row[ColumnName(t)]) else None
    case Op(o, cs) =>
      var l, r := Meaning(cs[0], row, num), Meaning(cs[1], row, num);
      if l.None? || r.None? then None else Apply(l.value, o, r.value)
  }

  // ---- the two passes compute the meaning ----

  function Joined(a: Option<seq<Cell>>, b: Option<seq<Cell>>): Option<seq<Cell>> {
    if a.None? || b.None? then None else Some(a.value + b.value)
  }

  lemma {:induction false} ResolveJoin(a: seq<Item>, b: seq<Item>, row: Row, num: string -> real)
    ensures Resolve(a + b, row, num) == Joined(Resolve(a, row, num), Resolve(b, row, num))
  {
    if a == [] {
      assert a + b == b;
      assert Resolve(b, row, num).Some? ==> [] + Resolve(b, row, num).value == Resolve(b, row, num).value;
    } else {
      assert (a + b)[0] == a[0] && (a + b)[1..] == a[1..] + b;
      ResolveJoin(a[1..], b, row, num);
      var x, y, z := ResolveOne(a[0], row, num), Resolve(a[1..], row, num), Resolve(b, row, num);
      assert x.Some? && y.Some? && z.Some? ==> [x.value] + (y.value + z.value) == [x.value] + y.value + z.value;
    }
  }

  /** The resolved list of a tree. */
  function CellsOf(t: Tree, row: Row, num: string -> real): Option<seq<Cell>>
    requires Arithmetic(t)
    decreases t
  {
    if t.Op? then Joined(CellsOf(t.childs[0], row, num), Joined(Some([Symbol(t.val)]), CellsOf(t.childs[1], row, num)))
    else if Meaning(t, row, num).None? then None else Some([Value(Meaning(t, row, num).value)])
  }

  lemma {:induction false} ResolvesTo(t: Tree, row: Row, num: string -> real)
    requires Arithmetic(t)
    ensures Resolve(Flatten(t), row, num) == CellsOf(t, row, num)
    ensures CellsOf(t, row, num).None? ==> Meaning(t, row, num).None?
    decreases t
  {
    match t
    case Op(o, cs) =>
      ResolvesTo(cs[0], row, num);
      ResolvesTo(cs[1], row, num);
      ResolveJoin([Word(o)], Flatten(cs[1]), row, num);
      ResolveJoin(Flatten(cs[0]), [Word(o)] + Flatten(cs[1]), row, num);
      ResolveSingle(Word(o), row, num);
    case Num(s) =>
      ResolveSingle(Literal(s), row, num);
    case Column(_, _) =>
      ResolveSingle(Word(ColumnName(t)), row, num);
  }

  lemma ResolveSingle(x: Item, row: Row, num: string -> real)
    ensures Resolve([x], row, num) == if ResolveOne(x, row, num).None? then None else Some([ResolveOne(x, row, num).value])
  {
    assert [x][1..] == [];
    var r := ResolveOne(x, row, num);
    assert r.Some? ==> [r.value] + [] == [r.value];
  }

  lemma PassUnfolds(xs: seq<Cell>, i: nat, ops: set<string>)
    requires 1 <= i && i + 1 < |xs| && xs[i].Symbol? && xs[i].s in ops
    ensures var r := ApplyCells(xs[i - 1], xs[i].s, xs[i + 1]);
            Pass(xs, i, ops) == if r.None? then None else Pass(xs[..i - 1] + ([r.value] + xs[i + 2..]), i, ops)
  {
  }

  /** One step of a pass: the operator after `pre` and a value is applied. */
  lemma PassApplies(pre: seq<Cell>, l: real, o: string, r: real, post: seq<Cell>, ops: set<string>)
    requires o in ops
    ensures var v := Apply(l, o, r);
            Pass(pre + ([Value(l)] + ([Symbol(o), Value(r)] + post)), |pre| + 1, ops)
            == if v.None? then None else Pass(pre + ([Value(v.value)] + post), |pre| + 1, ops)
  {
    var xs := pre + ([Value(l)] + ([Symbol(o), Value(r)] + post));
    hide Pass;
    assert xs == pre + [Value(l), Symbol(o), Value(r)] + post;
    assert xs[|pre|] == Value(l) && xs[|pre| + 1] == Symbol(o) && xs[|pre| + 2] == Value(r);
    assert xs[..|pre|] == pre && xs[|pre| + 3..] == post;
    PassUnfolds(xs, |pre| + 1, ops);
  }

  lemma Regroup(pre: seq<Cell>, a: seq<Cell>, x: Cell, b: seq<Cell>, post: seq<Cell>)
    ensures pre + ((a + ([x] + b)) + post) == pre + (a + ([x] + (b + post)))
    ensures pre + (a + ([x] + (b + post))) == (pre + (a + [x])) + (b + post)
  {
  }

  /** The first pass over a product leaves its value. */
  lemma {:induction false} TermPass(t: Tree, pre: seq<Cell>, post: seq<Cell>, row: Row, num: string -> real)
    requires Arithmetic(t) && Bare(t) && Level(t) >= 5 && CellsOf(t, row, num).Some?
    ensures var v, cs := Meaning(t, row, num), CellsOf(t, row, num).value;
            Pass(pre + (cs + post), |pre| + 1, MULTIPLIERS)
            == if v.None? then None else Pass(pre + ([Value(v.value)] + post), |pre| + 1, MULTIPLIERS)
    decreases t
  {
    if t.Op? {
      hide Pass;
      var l, r := t.childs[0], t.childs[1];
      assert Level(r) == 6 && !r.Op?;
      var lc, rc := CellsOf(l, row, num).value, CellsOf(r, row, num).value;
      Regroup(pre, lc, Symbol(t.val), rc, post);
      assert [Symbol(t.val)] + (rc + post) == [Symbol(t.val), rc[0]] + post;
      TermPass(l, pre, [Symbol(t.val)] + (rc + post), row, num);
      if Meaning(l, row, num).Some? {
        PassApplies(pre, Meaning(l, row, num).value, t.val, Meaning(r, row, num).value, post, MULTIPLIERS);
      }
    }
  }

  /** A sum with the values of its terms. */
  function Reduced(t: Tree, row: Row, num: string -> real): seq<Cell>
    requires Arithmetic(t) && Meaning(t, row, num).Some?
    decreases t
  {
    if Level(t) >= 5 then [Value(Meaning(t, row, num).value)]
    else Reduced(t.childs[0], row, num) + ([Symbol(t.val)] + [Value(Meaning(t.childs[1], row, num).value)])
  }

  lemma TermReduced(t: Tree, row: Row, num: string -> real)
    requires Arithmetic(t) && Level(t) >= 5
    ensures Meaning(t, row, num).Some? ==> Reduced(t, row, num) == [Value(Meaning(t, row, num).value)]
  {
  }

  lemma SumParts(t: Tree, row: Row, num: string -> real)
    requires Arithmetic(t) && Bare(t) && Level(t) < 5 && CellsOf(t, row, num).Some?
    ensures t.Op? && |t.childs| == 2 && t.val !in MULTIPLIERS && Level(t.childs[1]) >= 5
    ensures var l, r := t.childs[0], t.childs[1];
            && Arithmetic(l) && Bare(l) && Arithmetic(r) && Bare(r)
            && CellsOf(l, row, num).Some? && CellsOf(r, row, num).Some?
            && CellsOf(t, row, num).value == CellsOf(l, row, num).value + ([Symbol(t.val)] + CellsOf(r, row, num).value)
            && (Meaning(t, row, num).None? <==> Meaning(l, row, num).None? || Meaning(r, row, num).None?)
            && (Meaning(t, row, num).Some? ==>
                  Reduced(t, row, num) == Reduced(l, row, num) + ([Symbol(t.val)] + [Value(Meaning(r, row, num).value)]))
  {
  }

  lemma PassSkips(pre: seq<Cell>, a: seq<Cell>, o: string, rest: seq<Cell>)
    requires o !in MULTIPLIERS && |a| >= 1 && rest != []
    ensures Pass(pre + (a + ([Symbol(o)] + rest)), |pre| + |a|, MULTIPLIERS)
            == Pass((pre + (a + [Symbol(o)])) + rest, |pre + (a + [Symbol(o)])| + 1, MULTIPLIERS)
  {
    var xs := pre + (a + ([Symbol(o)] + rest));
    assert xs[|pre| + |a|] == Symbol(o);
    assert xs == (pre + (a + [Symbol(o)])) + rest;
  }

  /** The first pass over a sum leaves its terms' values. */
  lemma {:induction false} SumPass(t: Tree, pre: seq<Cell>, post: seq<Cell>, row: Row, num: string -> real)
    requires Arithmetic(t) && Bare(t) && CellsOf(t, row, num).Some?
    ensures var cs := CellsOf(t, row, num).value;
            Pass(pre + (cs + post), |pre| + 1, MULTIPLIERS)
            == if Meaning(t, row, num).None? then None
               else Pass(pre + (Reduced(t, row, num) + post), |pre| + |Reduced(t, row, num)|, MULTIPLIERS)
    decreases t
  {
    hide Pass, CellsOf, Meaning, Reduced;
    if Level(t) >= 5 {
      TermPass(t, pre, post, row, num);
      TermReduced(t, row, num);
    } else {
      SumParts(t, row, num);
      var l, r, x := t.childs[0], t.childs[1], Symbol(t.val);
      var lc, rc := CellsOf(l, row, num).value, CellsOf(r, row, num).value;
      CellsSome(r, row, num);
      Regroup(pre, lc, x, rc, post);
      SumPass(l, pre, [x] + (rc + post), row, num);
      if Meaning(l, row, num).Some? {
        var lr := Reduced(l, row, num);
        ReducedSome(l, row, num);
        TermPass(r, pre + (lr + [x]), post, row, num);
        SumStep(pre, lr, t.val, rc, post, Meaning(r, row, num));
      }
    }
  }

  /** After the terms on the left, the operator is passed over and the next term reduced. */
  lemma SumStep(pre: seq<Cell>, lr: seq<Cell>, o: string, rc: seq<Cell>, post: seq<Cell>, v: Option<real>)
    requires o !in MULTIPLIERS && |lr| >= 1 && |rc| >= 1
    requires var pre' := pre + (lr + [Symbol(o)]);
             Pass(pre' + (rc + post), |pre'| + 1, MULTIPLIERS)
             == if v.None? then None else Pass(pre' + ([Value(v.value)] + post), |pre'| + 1, MULTIPLIERS)
    ensures Pass(pre + (lr + ([Symbol(o)] + (rc + post))), |pre| + |lr|, MULTIPLIERS)
            == if v.None? then None
               else Pass(pre + ((lr + ([Symbol(o)] + [Value(v.value)])) + post), |pre| + |lr| + 2, MULTIPLIERS)
  {
    hide Pass;
    PassSkips(pre, lr, o, rc + post);
    if v.Some? {
      Regroup(pre, lr, Symbol(o), [Value(v.value)], post);
    }
  }

  lemma CellsSome(t: Tree, row: Row, num: string -> real)
    requires Arithmetic(t) && CellsOf(t, row, num).Some?
    ensures |CellsOf(t, row, num).value| >= 1
  {
  }

  lemma ReducedSome(t: Tree, row: Row, num: string -> real)
    requires Arithmetic(t) && Meaning(t, row, num).Some?
    ensures |Reduced(t, row, num)| >= 1
  {
  }

  /** The second pass over a sum leaves its value. */
  lemma {:induction false} AddPass(t: Tree, post: seq<Cell>, row: Row, num: string -> real)
    requires Arithmetic(t) && Bare(t) && Meaning(t, row, num).Some?
    ensures Pass(Reduced(t, row, num) + post, 1, ADDERS) == Pass([Value(Meaning(t, row, num).value)] + post, 1, ADDERS)
    decreases t
  {
    hide Pass;
    if Level(t) < 5 {
      var l, r, x := t.childs[0], t.childs[1], Symbol(t.val);
      var vr := Value(Meaning(r, row, num).value);
      var lr := Reduced(l, row, num);
      assert (lr + ([x] + [vr])) + post == lr + ([x, vr] + post);
      AddPass(l, [x, vr] + post, row, num);
      PassApplies([], Meaning(l, row, num).value, t.val, Meaning(r, row, num).value, post, ADDERS);
      assert forall s: seq<Cell> :: [] + s == s;
    }
  }

  /** Without parentheses, evaluating the flattened list gives the tree's value: an error exactly when a
      column is missing or some divisor is zero. */
  lemma EvaluationIsMeaning(t: Tree, row: Row, num: string -> real)
    requires Arithmetic(t) && Bare(t)
    ensures Evaluated(Flatten(t), row, num) == if Meaning(t, row, num).None? then None else Some(Value(Meaning(t, row, num).value))
  {
    hide Pass;
    ResolvesTo(t, row, num);
    NotEmpty(t);
    if CellsOf(t, row, num).Some? {
      var cs := CellsOf(t, row, num).value;
      SumPass(t, [], [], row, num);
      assert [] + (cs + []) == cs;
      if Meaning(t, row, num).Some? {
        var reduced := Reduced(t, row, num);
        assert [] + (reduced + []) == reduced && reduced + [] == reduced;
        PassEnds(reduced, |reduced|, MULTIPLIERS);
        AddPass(t, [], row, num);
        var v := Value(Meaning(t, row, num).value);
        assert [v] + [] == [v];
        PassEnds([v], 1, ADDERS);
      }
    }
  }

  lemma NotEmpty(t: Tree)
    requires Arithmetic(t)
    ensures Flatten(t) != []
  {
  }

  lemma PassEnds(xs: seq<Cell>, i: nat, ops: set<string>)
    requires i >= 1 && i + 1 >= |xs|
    ensures Pass(xs, i, ops) == Some(xs)
  {
  }

  // ---- parentheses ----

  function ItemOf(t: Token): Item {
    if t.Number? then Literal(t.value) else if t.Eof? then Word("") else Word(t.value)
  }

  function ItemsOf(ts: Tokens): (items: seq<Item>)
    ensures |items| == |ts|
  {
    if ts == [] then [] else [ItemOf(ts[0])] + ItemsOf(ts[1..])
  }

  lemma {:induction false} ItemsJoin(a: Tokens, b: Tokens)
    ensures ItemsOf(a + b) == ItemsOf(a) + ItemsOf(b)
  {
    if a == [] {
      assert a + b == b;
    } else {
      assert (a + b)[0] == a[0] && (a + b)[1..] == a[1..] + b;
      ItemsJoin(a[1..], b);
    }
  }

  /** No column is written with its table. */
  predicate Unqualified(t: Tree)
    decreases t
  {
    if t.Op? then forall c | c in t.childs :: Unqualified(c) else t.Column? ==> t.table.None?
  }

  lemma {:induction false} ArithmeticIsGrammatical(t: Tree)
    requires Arithmetic(t)
    ensures Grammatical(t) && (t.Op? ==> Level(t) == (if t.val in MULTIPLIERS then 5 else 4) && t.childs == [t.childs[0], t.childs[1]])
    decreases t
  {
    if t.Op? {
      ArithmeticIsGrammatical(t.childs[0]);
      ArithmeticIsGrammatical(t.childs[1]);
      assert t.childs == [t.childs[0], t.childs[1]];
    }
  }

  /** Flattening gives the rendering's tokens exactly if the rendering has no parentheses. */
  lemma {:induction false} FlattenIsTokensIff(t: Tree, level: nat)
    requires Arithmetic(t) && Unqualified(t) && Grammatical(t)
    ensures ItemsOf(Print(t, level)) == Flatten(t) <==> Bare(t) && Level(t) >= level
    ensures !(Bare(t) && Level(t) >= level) ==> |Print(t, level)| > |Flatten(t)|
    decreases t
  {
    hide ItemsOf;
    ArithmeticIsGrammatical(t);
    if t.Op? {
      var l, r, n := t.childs[0], t.childs[1], Level(t);
      assert l in t.childs && r in t.childs;
      FlattenIsTokensIff(l, n);
      FlattenIsTokensIff(r, n + 1);
      OpItems(Print(l, n), t.val, Print(r, n + 1));
    } else {
      LeafItems(t);
    }
  }

  lemma OpItems(a: Tokens, o: string, b: Tokens)
    ensures ItemsOf(a + ([Operator(o)] + b)) == ItemsOf(a) + ([Word(o)] + ItemsOf(b))
  {
    ItemsJoin(a, [Operator(o)] + b);
    ItemsJoin([Operator(o)], b);
    assert [Operator(o)][1..] == [];
  }

  lemma LeafItems(t: Tree)
    requires Arithmetic(t) && !t.Op? && Unqualified(t) && Grammatical(t)
    ensures ItemsOf(Raw(t)) == Flatten(t)
  {
    assert Raw(t)[1..] == [];
  }

  const A: Tree := Column(None, "a")
  const SUM: Tree := Op("+", [A, A])

  /** With parentheses the value can be another: (a + a) * a at 3 is 18, and evaluates to 12. */
  lemma ParenthesesLost(num: string -> real)
    ensures var t, row: Row := Op("*", [SUM, A]), map["a" := 3.0];
            && Arithmetic(t) && !Bare(t) && Meaning(t, row, num) == Some(18.0)
            && Evaluated(Flatten(t), row, num) == Some(Value(12.0))
  {
    var t, row: Row := Op("*", [SUM, A]), map["a" := 3.0];
    var other := Op("+", [A, Op("*", [A, A])]);
    assert t.childs == [SUM, A] && SUM.childs == [A, A] && other.childs == [A, Op("*", [A, A])];
    assert Flatten(t) == Flatten(other);
    assert Meaning(SUM, row, num) == Some(6.0);
    assert Meaning(Op("*", [A, A]), row, num) == Some(9.0);
    assert Bare(Op("*", [A, A])) && Bare(other);
    EvaluationIsMeaning(other, row, num);
  }
}
