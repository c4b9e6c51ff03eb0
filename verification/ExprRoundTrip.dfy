/** Rendering an expression and parsing it back. */
module ExprRoundTrip {
  import opened Wrappers
  import opened Sequences
  import opened ExprGrammar

  // ---- the grammar's trees ----

  /** How tightly a tree of the grammar binds: 6 for a primary, down to 0 for a disjunction. */
  function Level(t: Tree): nat {
    if !t.Op? then 6
    else if |t.childs| == 1 && t.val == "-" then 6
    else if |t.childs| == 2 && t.val in FACTORS then 5
    else if |t.childs| == 2 && t.val in TERMS then 4
    else if |t.childs| == 1 && t.val == "NOT" then 2
    else if |t.childs| == 2 && t.val == "AND" then 1
    else if |t.childs| == 2 && t.val == "OR" then 0
    else 3
  }

  predicate Shaped(t: Tree) {
    t.Op? && Level(t) == 3 ==>
      || (|t.childs| == 2 && (t.val in RELATIONS || t.val == "LIKE"))
      || (|t.childs| >= 2 && t.val == "IN")
      || (|t.childs| == 3 && t.val == "BETWEEN")
  }

  /** The trees over OR, AND, NOT, the comparisons, LIKE, IN, BETWEEN, the arithmetic operators and unary minus. */
  predicate Grammatical(t: Tree)
    decreases t
  {
    Shaped(t) && (t.Op? ==> forall c | c in t.childs :: Grammatical(c))
  }

  // ---- rendering, with parentheses where the binding needs them ----

  function Name(n: string): Token {
    if n == "*" then Operator("*") else Ident(n)
  }

  function Print(t: Tree, level: nat): Tokens
    requires Grammatical(t)
    decreases t, 1
  {
    if Level(t) < level then [Punct("(")] + (Raw(t) + [Punct(")")]) else Raw(t)
  }

  function Raw(t: Tree): Tokens
    requires Grammatical(t)
    decreases t, 0
  {
    match t
    case Column(None, n) => [Name(n)]
    case Column(Some(q), n) => [Name(q), Punct("."), Name(n)]
    case Text(s) => [Str(s)]
    case Num(s) => [Number(s)]
    case Op(o, cs) =>
      if Level(t) == 6 then [Operator("-")] + Print(cs[0], 6)
      else if Level(t) == 5 then Print(cs[0], 5) + ([Operator(o)] + Print(cs[1], 6))
      else if Level(t) == 4 then Print(cs[0], 4) + ([Operator(o)] + Print(cs[1], 5))
      else if Level(t) == 2 then [Keyword("NOT")] + Print(cs[0], 3)
      else if Level(t) == 1 then Print(cs[0], 1) + ([Keyword("AND")] + Print(cs[1], 2))
      else if Level(t) == 0 then Print(cs[0], 0) + ([Keyword("OR")] + Print(cs[1], 1))
      else if o == "IN" then Print(cs[0], 4) + ([Keyword("IN")] + ([Punct("(")] + (PrintList(cs[1..]) + [Punct(")")])))
      else if o == "BETWEEN" then
        Print(cs[0], 4) + ([Keyword("BETWEEN")] + (Print(cs[1], 4) + ([Keyword("AND")] + Print(cs[2], 4))))
      else Print(cs[0], 4) + ([if o == "LIKE" then Keyword(o) else Operator(o)] + Print(cs[1], 4))
  }

  function PrintList(cs: seq<Tree>): Tokens
    requires cs != [] && forall c | c in cs :: Grammatical(c)
    decreases cs, 0
  {
    if |cs| == 1 then Print(cs[0], 4) else Print(cs[0], 4) + ([Punct(",")] + PrintList(cs[1..]))
  }

  // ---- what reading back means at each level ----

  /** The token at `j` does not continue an expression that binds as tightly as `level`. */
  predicate Quiet(ts: Tokens, j: nat, level: nat) {
    && !Is(ts, j, Punct("."))
    && (level <= 4 ==> !IsOperator(ts, j, FACTORS))
    && (level <= 3 ==> !IsOperator(ts, j, TERMS) && !IsOperator(ts, j, RELATIONS) && !Is(ts, j, Keyword("LIKE"))
                       && !Is(ts, j, Keyword("IN")) && !Is(ts, j, Keyword("BETWEEN")))
    && (level == 0 ==> !Is(ts, j, Keyword("AND")))
  }

  /** The descent from `i` at `level` reaches `end` with `t` in hand, and goes on from there as its loop does. */
  ghost predicate Reads(ts: Tokens, i: nat, t: Tree, end: nat, level: nat) {
    end <= |ts| &&
    if level >= 6 then Primary(ts, i) == Some(Parsed(t, end))
    else if level == 5 then Multiplicative(ts, i) == Factors(ts, t, end)
    else if level == 4 then Additive(ts, i) == Terms(ts, t, end)
    else if level == 3 then Comparison(ts, i) == Some(Parsed(t, end)) && !Is(ts, i, Keyword("NOT"))
    else if level == 2 then Not(ts, i) == Some(Parsed(t, end))
    else if level == 1 then And(ts, i) == Conjuncts(ts, t, end)
    else Or(ts, i) == Disjuncts(ts, t, end)
  }

  lemma NotNot(ts: Tokens, i: nat)
    requires Is(ts, i, Keyword("NOT"))
    ensures Primary(ts, i).None? && Multiplicative(ts, i).None? && Additive(ts, i).None?
  {
  }

  lemma {:induction false} Loosens(ts: Tokens, i: nat, t: Tree, end: nat, from: nat, to: nat)
    requires to <= from <= 6 && Reads(ts, i, t, end, from) && Quiet(ts, end, to)
    ensures Reads(ts, i, t, end, to)
    decreases from
  {
    if to < from {
      LoosensOnce(ts, i, t, end, from);
      Loosens(ts, i, t, end, from - 1, to);
    }
  }

  lemma LoosensOnce(ts: Tokens, i: nat, t: Tree, end: nat, from: nat)
    requires 0 < from <= 6 && Reads(ts, i, t, end, from) && Quiet(ts, end, from - 1)
    ensures Reads(ts, i, t, end, from - 1)
  {
    if from == 4 && Is(ts, i, Keyword("NOT")) {
      NotNot(ts, i);
    }
  }

  // ---- the round trip, level by level ----

  /** A rendered tree reads back, at any level it is rendered for. */
  lemma {:induction false} PrintReads(ts: Tokens, i: nat, t: Tree, level: nat)
    requires Grammatical(t) && level <= 6 && At(ts, i, Print(t, level)) && Quiet(ts, i + |Print(t, level)|, level)
    ensures Reads(ts, i, t, i + |Print(t, level)|, level)
    decreases t, 3
  {
    hide Raw, Reads, At, Grammatical, Level, Quiet;
    var end := i + |Print(t, level)|;
    if Level(t) < level {
      ParenthesesRead(ts, i, t);
      QuietInside(ts, end, level);
      Loosens(ts, i, t, end, 6, level);
    } else {
      LevelBound(t);
      QuietAbove(ts, end, level, Level(t));
      RawReads(ts, i, t);
      Loosens(ts, i, t, end, Level(t), level);
    }
  }

  lemma LevelBound(t: Tree)
    ensures Level(t) <= 6
  {
  }

  lemma QuietAbove(ts: Tokens, j: nat, level: nat, more: nat)
    requires Quiet(ts, j, level) && level <= more
    ensures Quiet(ts, j, more)
  {
  }

  lemma QuietInside(ts: Tokens, j: nat, level: nat)
    requires Quiet(ts, j, level)
    ensures Quiet(ts, j, 6)
  {
  }

  /** In parentheses, whatever follows but a dot. */
  lemma {:induction false} ParenthesesRead(ts: Tokens, i: nat, t: Tree)
    requires Grammatical(t) && At(ts, i, [Punct("(")] + (Raw(t) + [Punct(")")]))
    ensures Reads(ts, i, t, i + |[Punct("(")] + (Raw(t) + [Punct(")")])|, 6)
    decreases t, 2
  {
    hide Raw, At, Grammatical, Level, Additive, Multiplicative, Comparison, Not, And;
    AtParts(ts, i, [Punct("(")], Raw(t) + [Punct(")")]);
    AtFirst(ts, i, Punct("("));
    AtParts(ts, i + 1, Raw(t), [Punct(")")]);
    AtFirst(ts, i + 1 + |Raw(t)|, Punct(")"));
    RawReads(ts, i + 1, t);
    LevelBound(t);
    Loosens(ts, i + 1, t, i + 1 + |Raw(t)|, Level(t), 0);
  }

  /** Without parentheses, at the tree's own level. */
  lemma {:induction false} RawReads(ts: Tokens, i: nat, t: Tree)
    requires Grammatical(t) && At(ts, i, Raw(t)) && Quiet(ts, i + |Raw(t)|, Level(t))
    ensures Reads(ts, i, t, i + |Raw(t)|, Level(t))
    decreases t, 1
  {
    hide Reads, At;
    if !t.Op? {
      LeafReads(ts, i, t);
    } else {
      if Level(t) == 6 {
        MinusReads(ts, i, t);
      } else if Level(t) == 5 {
        FactorReads(ts, i, t);
      } else if Level(t) == 4 {
        TermReads(ts, i, t);
      } else if Level(t) == 2 {
        NotReads(ts, i, t);
      } else if Level(t) == 1 {
        AndReads(ts, i, t);
      } else if Level(t) == 0 {
        OrReads(ts, i, t);
      } else if t.val == "IN" {
        InReads(ts, i, t);
      } else if t.val == "BETWEEN" {
        BetweenReads(ts, i, t);
      } else {
        RelationReads(ts, i, t);
      }
    }
  }

  lemma LeafReads(ts: Tokens, i: nat, t: Tree)
    requires !t.Op? && At(ts, i, Raw(t)) && !Is(ts, i + |Raw(t)|, Punct("."))
    ensures Reads(ts, i, t, i + |Raw(t)|, 6)
  {
    if t.Column? && t.table.Some? {
      AtParts(ts, i, [Name(t.table.value)], [Punct("."), Name(t.name)]);
      assert [Name(t.table.value)] + [Punct("."), Name(t.name)] == Raw(t);
      AtFirst(ts, i, Name(t.table.value));
      AtParts(ts, i + 1, [Punct(".")], [Name(t.name)]);
      AtFirst(ts, i + 1, Punct("."));
      AtFirst(ts, i + 2, Name(t.name));
    } else {
      AtFirst(ts, i, Raw(t)[0]);
    }
  }

  lemma {:induction false} MinusReads(ts: Tokens, i: nat, t: Tree)
    requires Grammatical(t) && t.Op? && Level(t) == 6 && At(ts, i, Raw(t)) && Quiet(ts, i + |Raw(t)|, 6)
    ensures Reads(ts, i, t, i + |Raw(t)|, 6)
    decreases t, 0
  {
    hide At, Print, Grammatical;
    var e := t.childs[0];
    ChildrenOf(t);
    assert t.childs == [e];
    AtParts(ts, i, [Operator("-")], Print(e, 6));
    AtFirst(ts, i, Operator("-"));
    PrintReads(ts, i + 1, e, 6);
  }

  /** Two renderings with a token between them. */
  lemma Around(ts: Tokens, i: nat, a: Tokens, o: Token, b: Tokens)
    requires At(ts, i, a + ([o] + b))
    ensures At(ts, i, a) && Is(ts, i + |a|, o) && At(ts, i + |a| + 1, b)
  {
    AtParts(ts, i, a, [o] + b);
    AtParts(ts, i + |a|, [o], b);
    AtFirst(ts, i + |a|, o);
  }

  lemma {:induction false} FactorReads(ts: Tokens, i: nat, t: Tree)
    requires Grammatical(t) && t.Op? && Level(t) == 5 && At(ts, i, Raw(t)) && Quiet(ts, i + |Raw(t)|, 5)
    ensures Reads(ts, i, t, i + |Raw(t)|, 5)
    decreases t, 0
  {
    hide At, Print, Grammatical, Primary, Multiplicative;
    var l, r := t.childs[0], t.childs[1];
    ChildrenOf(t);
    assert t.childs == [l, r];
    Around(ts, i, Print(l, 5), Operator(t.val), Print(r, 6));
    PrintReads(ts, i, l, 5);
    PrintReads(ts, i + |Print(l, 5)| + 1, r, 6);
  }

  lemma {:induction false} TermReads(ts: Tokens, i: nat, t: Tree)
    requires Grammatical(t) && t.Op? && Level(t) == 4 && At(ts, i, Raw(t)) && Quiet(ts, i + |Raw(t)|, 4)
    ensures Reads(ts, i, t, i + |Raw(t)|, 4)
    decreases t, 0
  {
    hide At, Print, Grammatical, Primary, Multiplicative, Additive;
    var l, r := t.childs[0], t.childs[1];
    ChildrenOf(t);
    assert t.childs == [l, r];
    Around(ts, i, Print(l, 4), Operator(t.val), Print(r, 5));
    PrintReads(ts, i, l, 4);
    PrintReads(ts, i + |Print(l, 4)| + 1, r, 5);
  }

  lemma {:induction false} NotReads(ts: Tokens, i: nat, t: Tree)
    requires Grammatical(t) && t.Op? && Level(t) == 2 && At(ts, i, Raw(t)) && Quiet(ts, i + |Raw(t)|, 2)
    ensures Reads(ts, i, t, i + |Raw(t)|, 2)
    decreases t, 0
  {
    hide At, Print, Grammatical, Comparison;
    var e := t.childs[0];
    ChildrenOf(t);
    assert t.childs == [e];
    AtParts(ts, i, [Keyword("NOT")], Print(e, 3));
    AtFirst(ts, i, Keyword("NOT"));
    PrintReads(ts, i + 1, e, 3);
  }

  lemma {:induction false} AndReads(ts: Tokens, i: nat, t: Tree)
    requires Grammatical(t) && t.Op? && Level(t) == 1 && At(ts, i, Raw(t)) && Quiet(ts, i + |Raw(t)|, 1)
    ensures Reads(ts, i, t, i + |Raw(t)|, 1)
    decreases t, 0
  {
    hide At, Print, Grammatical, Not, And;
    var l, r := t.childs[0], t.childs[1];
    ChildrenOf(t);
    assert t.childs == [l, r];
    Around(ts, i, Print(l, 1), Keyword("AND"), Print(r, 2));
    PrintReads(ts, i, l, 1);
    PrintReads(ts, i + |Print(l, 1)| + 1, r, 2);
  }

  lemma {:induction false} OrReads(ts: Tokens, i: nat, t: Tree)
    requires Grammatical(t) && t.Op? && Level(t) == 0 && At(ts, i, Raw(t)) && Quiet(ts, i + |Raw(t)|, 0)
    ensures Reads(ts, i, t, i + |Raw(t)|, 0)
    decreases t, 0
  {
    hide At, Print, Grammatical, And, Or;
    var l, r := t.childs[0], t.childs[1];
    ChildrenOf(t);
    assert t.childs == [l, r];
    Around(ts, i, Print(l, 0), Keyword("OR"), Print(r, 1));
    PrintReads(ts, i, l, 0);
    PrintReads(ts, i + |Print(l, 0)| + 1, r, 1);
    ConjunctsEnd(ts, i + |Print(l, 0)| + 1, r, i + |Raw(t)|);
  }

  /** A conjunction followed by no AND. */
  lemma ConjunctsEnd(ts: Tokens, i: nat, t: Tree, end: nat)
    requires Reads(ts, i, t, end, 1) && Quiet(ts, end, 0)
    ensures And(ts, i) == Some(Parsed(t, end))
  {
  }

  /** An operand of a comparison, followed by nothing that binds it. */
  lemma {:induction false} OperandReads(ts: Tokens, i: nat, t: Tree)
    requires Grammatical(t) && At(ts, i, Print(t, 4))
    requires var j := i + |Print(t, 4)|; !Is(ts, j, Punct(".")) && !IsOperator(ts, j, FACTORS) && !IsOperator(ts, j, TERMS)
    ensures Additive(ts, i) == Some(Parsed(t, i + |Print(t, 4)|)) && !Is(ts, i, Keyword("NOT"))
    decreases t, 4
  {
    hide At, Print, Grammatical;
    PrintReads(ts, i, t, 4);
    if Is(ts, i, Keyword("NOT")) {
      NotNot(ts, i);
    }
  }

  lemma {:induction false} RelationReads(ts: Tokens, i: nat, t: Tree)
    requires Grammatical(t) && t.Op? && Level(t) == 3 && t.val != "IN" && t.val != "BETWEEN"
    requires At(ts, i, Raw(t)) && Quiet(ts, i + |Raw(t)|, 3)
    ensures Reads(ts, i, t, i + |Raw(t)|, 3)
    decreases t, 0
  {
    hide At, Print, Grammatical, Additive;
    assert Shaped(t) by {
      ShapedOf(t);
    }
    var l, r := t.childs[0], t.childs[1];
    assert t.childs == [l, r];
    var o := if t.val == "LIKE" then Keyword(t.val) else Operator(t.val);
    ChildrenOf(t);
    Around(ts, i, Print(l, 4), o, Print(r, 4));
    OperandReads(ts, i, l);
    OperandReads(ts, i + |Print(l, 4)| + 1, r);
    ComparisonIs(ts, i, l, i + |Print(l, 4)|);
  }

  /** A comparison goes on from its left operand. */
  lemma ComparisonIs(ts: Tokens, i: nat, l: Tree, j: nat)
    requires Additive(ts, i) == Some(Parsed(l, j))
    ensures Comparison(ts, i) == Compared(ts, l, j)
  {
  }

  lemma ShapedOf(t: Tree)
    requires Grammatical(t)
    ensures Shaped(t)
  {
  }

  lemma ChildrenOf(t: Tree)
    requires Grammatical(t) && t.Op?
    ensures forall k | 0 <= k < |t.childs| :: Grammatical(t.childs[k])
  {
  }

  lemma {:induction false} BetweenReads(ts: Tokens, i: nat, t: Tree)
    requires Grammatical(t) && t.Op? && Level(t) == 3 && t.val == "BETWEEN"
    requires At(ts, i, Raw(t)) && Quiet(ts, i + |Raw(t)|, 3)
    ensures Reads(ts, i, t, i + |Raw(t)|, 3)
    decreases t, 0
  {
    hide At, Print, Grammatical, Additive, Comparison, Compared;
    ShapedOf(t);
    ChildrenOf(t);
    var l, lower, upper := t.childs[0], t.childs[1], t.childs[2];
    assert t.childs == [l, lower, upper];
    var j := i + |Print(l, 4)|;
    Around(ts, i, Print(l, 4), Keyword("BETWEEN"), Print(lower, 4) + ([Keyword("AND")] + Print(upper, 4)));
    Around(ts, j + 1, Print(lower, 4), Keyword("AND"), Print(upper, 4));
    OperandReads(ts, i, l);
    OperandReads(ts, j + 1, lower);
    OperandReads(ts, j + 1 + |Print(lower, 4)| + 1, upper);
    ComparisonIs(ts, i, l, j);
    ComparedBetween(ts, l, j, lower, j + 1 + |Print(lower, 4)|, upper, i + |Raw(t)|);
  }

  lemma ComparedBetween(ts: Tokens, l: Tree, j: nat, lower: Tree, k: nat, upper: Tree, end: nat)
    requires j <= |ts| && Is(ts, j, Keyword("BETWEEN")) && Additive(ts, j + 1) == Some(Parsed(lower, k))
    requires Is(ts, k, Keyword("AND")) && Additive(ts, k + 1) == Some(Parsed(upper, end))
    ensures Compared(ts, l, j) == Some(Parsed(Op("BETWEEN", [l, lower, upper]), end))
  {
    hide Additive;
  }

  lemma InParts(ts: Tokens, i: nat, a: Tokens, b: Tokens)
    requires At(ts, i, a + ([Keyword("IN")] + ([Punct("(")] + (b + [Punct(")")]))))
    ensures var j := i + |a|;
            At(ts, i, a) && Is(ts, j, Keyword("IN")) && Is(ts, j + 1, Punct("(")) && At(ts, j + 2, b) && Is(ts, j + 2 + |b|, Punct(")"))
  {
    hide At;
    var j := i + |a|;
    Around(ts, i, a, Keyword("IN"), [Punct("(")] + (b + [Punct(")")]));
    AtParts(ts, j + 1, [Punct("(")], b + [Punct(")")]);
    AtFirst(ts, j + 1, Punct("("));
    AtParts(ts, j + 2, b, [Punct(")")]);
    AtFirst(ts, j + 2 + |b|, Punct(")"));
  }

  lemma {:induction false} InReads(ts: Tokens, i: nat, t: Tree)
    requires Grammatical(t) && t.Op? && Level(t) == 3 && t.val == "IN"
    requires At(ts, i, Raw(t)) && Quiet(ts, i + |Raw(t)|, 3)
    ensures Reads(ts, i, t, i + |Raw(t)|, 3)
    decreases t, 0
  {
    hide At, Print, PrintList, Grammatical, Additive, Values, Comparison;
    ShapedOf(t);
    ChildrenOf(t);
    var l, vs := t.childs[0], t.childs[1..];
    assert t.childs == [l] + vs && forall c | c in vs :: Grammatical(c);
    var j := i + |Print(l, 4)|;
    InParts(ts, i, Print(l, 4), PrintList(vs));
    OperandReads(ts, i, l);
    ValuesRead(ts, j + 2, vs);
    ComparisonIs(ts, i, l, j);
  }

  lemma {:induction false} ValuesRead(ts: Tokens, i: nat, vs: seq<Tree>)
    requires vs != [] && (forall c | c in vs :: Grammatical(c)) && At(ts, i, PrintList(vs))
    requires Is(ts, i + |PrintList(vs)|, Punct(")"))
    ensures Values(ts, i) == Some((vs, i + |PrintList(vs)|))
    decreases vs, 0
  {
    hide At, Print, Grammatical, Additive;
    if |vs| == 1 {
      OperandReads(ts, i, vs[0]);
      assert vs == [vs[0]];
    } else {
      Around(ts, i, Print(vs[0], 4), Punct(","), PrintList(vs[1..]));
      OperandReads(ts, i, vs[0]);
      ValuesRead(ts, i + |Print(vs[0], 4)| + 1, vs[1..]);
      assert vs == [vs[0]] + vs[1..];
    }
  }

  /** Parsing undoes rendering: of any tree of the grammar, anywhere, before any token that cannot
      continue an expression; and it stops at that token. */
  lemma ParsingUndoesPrinting(ts: Tokens, i: nat, t: Tree)
    requires Grammatical(t) && At(ts, i, Print(t, 0))
    requires Quiet(ts, i + |Print(t, 0)|, 0) && !Is(ts, i + |Print(t, 0)|, Keyword("OR"))
    ensures Or(ts, i) == Some(Parsed(t, i + |Print(t, 0)|))
  {
    PrintReads(ts, i, t, 0);
  }
}
