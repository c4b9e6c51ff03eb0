/** What evaluating a list gives, told by the arithmetic of real numbers alone. */
module ExprLaws {
  import opened Wrappers
  import opened ExprGrammar
  import opened ExprEval

  /** The value a list is evaluated to. */
  ghost predicate Gives(items: seq<Item>, row: Row, num: string -> real, v: real) {
    Evaluated(items, row, num) == Some(Value(v))
  }

  ghost predicate Fails(items: seq<Item>, row: Row, num: string -> real) {
    Evaluated(items, row, num) == None
  }

  // ---- one operator, between lists of any length ----

  /** A sum, difference, product or quotient written without parentheses is evaluated to the number that the
      two sides' values make: it fails exactly if a side does or the divisor is zero. */
  lemma OperatorLaw(t: Tree, row: Row, num: string -> real)
    requires Arithmetic(t) && Bare(t) && t.Op?
    ensures Flatten(t) == Flatten(t.childs[0]) + ([Word(t.val)] + Flatten(t.childs[1]))
    ensures var l, r := Flatten(t.childs[0]), Flatten(t.childs[1]);
            Fails(Flatten(t), row, num)
            <==> Fails(l, row, num) || Fails(r, row, num) || (t.val == "/" && Gives(r, row, num, 0.0))
    ensures forall x: real, y: real :: Gives(Flatten(t.childs[0]), row, num, x) && Gives(Flatten(t.childs[1]), row, num, y) ==>
              forall d: real :: Gives(Flatten(t), row, num, d) <==> Relation(x, t.val, y, d)
  {
    hide Evaluated, Flatten;
    var l, r := t.childs[0], t.childs[1];
    EvaluationIsMeaning(t, row, num);
    EvaluationIsMeaning(l, row, num);
    EvaluationIsMeaning(r, row, num);
    FlattenParts(t);
    assert t.val in {"+", "-", "*", "/"};
    if Meaning(l, row, num).Some? && Meaning(r, row, num).Some? {
      ApplyLaw(Meaning(l, row, num).value, t.val, Meaning(r, row, num).value);
    }
  }

  lemma FlattenParts(t: Tree)
    requires t.Op? && |t.childs| == 2
    ensures Flatten(t) == Flatten(t.childs[0]) + ([Word(t.val)] + Flatten(t.childs[1]))
  {
  }

  /** How the result stands to the operands: what is subtracted added back, what is divided by multiplied back. */
  ghost predicate Relation(x: real, o: string, y: real, d: real) {
    if o == "+" then d == x + y
    else if o == "-" then d + y == x
    else if o == "*" then d == x * y
    else y != 0.0 && d * y == x
  }

  lemma ApplyLaw(x: real, o: string, y: real)
    requires o in {"+", "-", "*", "/"}
    ensures Apply(x, o, y).None? <==> o == "/" && y == 0.0
    ensures forall d: real :: Apply(x, o, y) == Some(d) <==> Relation(x, o, y, d)
  {
    Signs();
    forall d: real
      ensures Apply(x, o, y) == Some(d) <==> Relation(x, o, y, d)
    {
      if o == "/" && y != 0.0 {
        DividedBack(x, y, d);
      }
    }
  }

  lemma Signs()
    ensures "+" != "-" && "+" != "*" && "+" != "/" && "-" != "*" && "-" != "/" && "*" != "/"
  {
    assert "+"[0] == '+' && "-"[0] == '-' && "*"[0] == '*' && "/"[0] == '/';
  }

  lemma DividedBack(x: real, y: real, d: real)
    requires y != 0.0
    ensures d == x / y <==> d * y == x
  {
  }

  // ---- operands ----

  /** The item stands for this number. */
  ghost predicate Stands(item: Item, v: real, row: Row, num: string -> real) {
    match item
    case Literal(s) => num(s) == v
    case Word(s) => s !in {"+", "-", "*", "/"} && s in row && row[s] == v
  }

  function LeafOf(item: Item): (t: Tree)
    ensures !t.Op?
  {
    match item
    case Literal(s) => Num(s)
    case Word(s) => Column(None, s)
  }

  /** A number alone is its value; a name that is no column of the row fails. */
  lemma OperandLaw(item: Item, v: real, row: Row, num: string -> real)
    ensures Stands(item, v, row, num) ==>
              Flatten(LeafOf(item)) == [item] && Arithmetic(LeafOf(item)) && Gives([item], row, num, v)
    ensures item.Word? && item.word !in {"+", "-", "*", "/"} && item.word !in row ==> Fails([item], row, num)
  {
    hide Evaluated;
    if Stands(item, v, row, num) || (item.Word? && item.word !in {"+", "-", "*", "/"}) {
      EvaluationIsMeaning(LeafOf(item), row, num);
    }
  }

  lemma TwoOperands(a: Item, o: string, b: Item, x: real, y: real, row: Row, num: string -> real)
    requires Stands(a, x, row, num) && Stands(b, y, row, num) && o in {"+", "-", "*", "/"}
    ensures Fails([a, Word(o), b], row, num) <==> o == "/" && y == 0.0
    ensures forall d: real :: Gives([a, Word(o), b], row, num, d) <==> Relation(x, o, y, d)
  {
    var t := Binary(LeafOf(a), o, LeafOf(b));
    OperandLaw(a, x, row, num);
    OperandLaw(b, y, row, num);
    BinaryLaw(LeafOf(a), o, LeafOf(b), x, y, row, num);
    assert [a] + ([Word(o)] + [b]) == [a, Word(o), b];
  }

  function Binary(l: Tree, o: string, r: Tree): Tree { Op(o, [l, r]) }

  lemma BinaryLaw(l: Tree, o: string, r: Tree, x: real, y: real, row: Row, num: string -> real)
    requires o in {"+", "-", "*", "/"} && Arithmetic(l) && Arithmetic(r) && Bare(Binary(l, o, r))
    requires Gives(Flatten(l), row, num, x) && Gives(Flatten(r), row, num, y)
    ensures Flatten(Binary(l, o, r)) == Flatten(l) + ([Word(o)] + Flatten(r))
    ensures Arithmetic(Binary(l, o, r))
    ensures Fails(Flatten(Binary(l, o, r)), row, num) <==> o == "/" && y == 0.0
    ensures forall d: real :: Gives(Flatten(Binary(l, o, r)), row, num, d) <==> Relation(x, o, y, d)
  {
    hide Evaluated, Flatten, Bare, Relation;
    var t := Binary(l, o, r);
    assert t.childs[0] == l && t.childs[1] == r;
    OperatorLaw(t, row, num);
  }

  // ---- three operands ----

  lemma Result(x: real, o: string, y: real) returns (e: real)
    requires o in {"+", "-", "*", "/"} && !(o == "/" && y == 0.0)
    ensures forall d: real :: Relation(x, o, y, d) <==> d == e
  {
    ApplyLaw(x, o, y);
    e := Apply(x, o, y).value;
    assert Relation(x, o, y, e);
  }

  /** The levels of the two operators let the first, or the second, be applied before the other. */
  lemma Grouped(a: Item, o: string, b: Item, p: string, c: Item)
    requires o in {"+", "-", "*", "/"} && p in {"+", "-", "*", "/"}
    ensures Bare(Binary(LeafOf(a), o, LeafOf(b)))
    ensures !(o in {"+", "-"} && p in {"*", "/"}) ==> Bare(Binary(Binary(LeafOf(a), o, LeafOf(b)), p, LeafOf(c)))
    ensures o in {"+", "-"} && p in {"*", "/"} ==> Bare(Binary(LeafOf(a), o, Binary(LeafOf(b), p, LeafOf(c))))
  {
    Signs();
  }

  /** Operators of one level are applied from the left, and a product or quotient before a sum that follows. */
  lemma FromTheLeft(a: Item, o: string, b: Item, p: string, c: Item, x: real, y: real, z: real, row: Row, num: string -> real)
    requires Stands(a, x, row, num) && Stands(b, y, row, num) && Stands(c, z, row, num)
    requires o in {"+", "-", "*", "/"} && p in {"+", "-", "*", "/"} && !(o in {"+", "-"} && p in {"*", "/"})
    ensures Fails([a, Word(o), b, Word(p), c], row, num) <==> (o == "/" && y == 0.0) || (p == "/" && z == 0.0)
    ensures forall d: real, e: real :: Relation(x, o, y, e) ==> (Gives([a, Word(o), b, Word(p), c], row, num, d) <==> Relation(e, p, z, d))
  {
    hide Evaluated, Flatten, Bare, Relation, Stands, Arithmetic, Fails, Gives;
    var l, r := Binary(LeafOf(a), o, LeafOf(b)), LeafOf(c);
    OperandLaw(a, x, row, num);
    OperandLaw(b, y, row, num);
    OperandLaw(c, z, row, num);
    Grouped(a, o, b, p, c);
    FlattenParts(l);
    FlattenParts(Binary(l, p, r));
    assert ([a] + ([Word(o)] + [b])) + ([Word(p)] + [c]) == [a, Word(o), b, Word(p), c];
    if o == "/" && y == 0.0 {
      BinaryLaw(LeafOf(a), o, LeafOf(b), x, y, row, num);
      OperandFails(l, p, r, row, num);
      assert forall e: real :: !Relation(x, o, y, e) by { NoQuotient(x, y); }
    } else {
      var e := Result(x, o, y);
      BinaryLaw(LeafOf(a), o, LeafOf(b), x, y, row, num);
      BinaryLaw(l, p, r, e, z, row, num);
    }
  }

  lemma NoQuotient(x: real, y: real)
    ensures y == 0.0 ==> forall e: real :: !Relation(x, "/", y, e)
  {
    Signs();
  }

  lemma OperandFails(l: Tree, o: string, r: Tree, row: Row, num: string -> real)
    requires o in {"+", "-", "*", "/"} && Arithmetic(l) && Arithmetic(r) && Bare(Binary(l, o, r))
    requires Fails(Flatten(l), row, num) || Fails(Flatten(r), row, num)
    ensures Fails(Flatten(Binary(l, o, r)), row, num)
  {
    hide Evaluated, Flatten, Bare;
    OperatorLaw(Binary(l, o, r), row, num);
  }

  /** A product or quotient comes before the sum or difference on its left. */
  lemma FromTheRight(a: Item, o: string, b: Item, p: string, c: Item, x: real, y: real, z: real, row: Row, num: string -> real)
    requires Stands(a, x, row, num) && Stands(b, y, row, num) && Stands(c, z, row, num)
    requires o in {"+", "-"} && p in {"*", "/"}
    ensures Fails([a, Word(o), b, Word(p), c], row, num) <==> p == "/" && z == 0.0
    ensures forall d: real, e: real :: Relation(y, p, z, e) ==> (Gives([a, Word(o), b, Word(p), c], row, num, d) <==> Relation(x, o, e, d))
  {
    hide Evaluated, Flatten, Bare, Relation, Stands, Arithmetic, Fails, Gives;
    var l, r := LeafOf(a), Binary(LeafOf(b), p, LeafOf(c));
    OperandLaw(a, x, row, num);
    OperandLaw(b, y, row, num);
    OperandLaw(c, z, row, num);
    Grouped(a, o, b, p, c);
    Grouped(b, p, c, p, c);
    FlattenParts(r);
    FlattenParts(Binary(l, o, r));
    assert [a] + ([Word(o)] + ([b] + ([Word(p)] + [c]))) == [a, Word(o), b, Word(p), c];
    Signs();
    BinaryLaw(LeafOf(b), p, LeafOf(c), y, z, row, num);
    if p == "/" && z == 0.0 {
      OperandFails(l, o, r, row, num);
      assert forall e: real :: !Relation(y, p, z, e) by { NoQuotient(y, z); }
    } else {
      var e := Result(y, p, z);
      BinaryLaw(l, o, r, x, e, row, num);
    }
  }

  /** In particular: differences and quotients are taken from the left, and products before sums. */
  lemma ThreeOperands(a: Item, b: Item, c: Item, x: real, y: real, z: real, row: Row, num: string -> real)
    requires Stands(a, x, row, num) && Stands(b, y, row, num) && Stands(c, z, row, num)
    ensures forall d: real :: Gives([a, Word("-"), b, Word("-"), c], row, num, d) <==> d + z + y == x
    ensures forall d: real :: Gives([a, Word("-"), b, Word("+"), c], row, num, d) <==> d + y == x + z
    ensures forall d: real :: Gives([a, Word("+"), b, Word("*"), c], row, num, d) <==> d == x + y * z
    ensures forall d: real :: Gives([a, Word("-"), b, Word("*"), c], row, num, d) <==> d + y * z == x
    ensures forall d: real :: Gives([a, Word("*"), b, Word("-"), c], row, num, d) <==> d + z == x * y
  {
    hide Evaluated, Stands, Fails, Gives;
    FromTheLeft(a, "-", b, "-", c, x, y, z, row, num);
    FromTheLeft(a, "-", b, "+", c, x, y, z, row, num);
    FromTheLeft(a, "*", b, "-", c, x, y, z, row, num);
    FromTheRight(a, "+", b, "*", c, x, y, z, row, num);
    FromTheRight(a, "-", b, "*", c, x, y, z, row, num);
    Signs();
    assert Relation(x, "-", y, x - y) && Relation(x, "*", y, x * y) && Relation(y, "*", z, y * z);
  }

  lemma TwoQuotients(a: Item, b: Item, c: Item, x: real, y: real, z: real, row: Row, num: string -> real)
    requires Stands(a, x, row, num) && Stands(b, y, row, num) && Stands(c, z, row, num)
    ensures Fails([a, Word("/"), b, Word("/"), c], row, num) <==> y == 0.0 || z == 0.0
    ensures forall d: real :: Gives([a, Word("/"), b, Word("/"), c], row, num, d) <==> y != 0.0 && z != 0.0 && (d * z) * y == x
  {
    hide Evaluated, Stands, Fails, Gives, Relation;
    FromTheLeft(a, "/", b, "/", c, x, y, z, row, num);
    Signs();
    if y == 0.0 || z == 0.0 {
      FailureGivesNothing([a, Word("/"), b, Word("/"), c], row, num);
    } else {
      var e := Result(x, "/", y);
      assert Relation(x, "/", y, e);
      forall d: real
        ensures Relation(e, "/", z, d) <==> (d * z) * y == x
      {
        QuotientAgain(x, y, z, e, d);
      }
    }
  }

  lemma FailureGivesNothing(items: seq<Item>, row: Row, num: string -> real)
    requires Fails(items, row, num)
    ensures forall d: real :: !Gives(items, row, num, d)
  {
  }

  lemma QuotientAgain(x: real, y: real, z: real, e: real, d: real)
    requires y != 0.0 && z != 0.0 && Relation(x, "/", y, e)
    ensures Relation(e, "/", z, d) <==> (d * z) * y == x
  {
    Signs();
    if (d * z) * y == x {
      DividedBack(x, y, d * z);
      DividedBack(x, y, e);
    }
  }

  // ---- lists that are no expression ----

  lemma {:induction false} PassKeepsParity(xs: seq<Cell>, i: nat, ops: set<string>)
    requires i >= 1
    ensures Pass(xs, i, ops).Some? ==> |Pass(xs, i, ops).value| % 2 == |xs| % 2
    decreases if i <= |xs| then |xs| - i else 0
  {
    hide ApplyCells;
    if i + 1 < |xs| {
      if xs[i].Symbol? && xs[i].s in ops {
        PassUnfolds(xs, i, ops);
        var r := ApplyCells(xs[i - 1], xs[i].s, xs[i + 1]);
        if r.Some? {
          assert |xs[..i - 1] + ([r.value] + xs[i + 2..])| == |xs| - 2;
          PassKeepsParity(xs[..i - 1] + ([r.value] + xs[i + 2..]), i, ops);
        }
      } else {
        PassKeepsParity(xs, i + 2, ops);
      }
    }
  }

  lemma {:induction false} ResolveKeepsLength(items: seq<Item>, row: Row, num: string -> real)
    ensures Resolve(items, row, num).Some? ==> |Resolve(items, row, num).value| == |items|
  {
    if items != [] {
      ResolveKeepsLength(items[1..], row, num);
    }
  }

  /** A list of even length is no expression: the passes never leave one value. */
  lemma EvenLengthFails(items: seq<Item>, row: Row, num: string -> real)
    requires |items| % 2 == 0
    ensures Fails(items, row, num)
  {
    hide Pass, Resolve;
    ResolveKeepsLength(items, row, num);
    var resolved := Resolve(items, row, num);
    if items != [] && resolved.Some? {
      PassKeepsParity(resolved.value, 1, MULTIPLIERS);
      var first := Pass(resolved.value, 1, MULTIPLIERS);
      if first.Some? {
        PassKeepsParity(first.value, 1, ADDERS);
      }
    }
  }
}
