/** What the parser accepts: a tree is returned only for tokens that spell it, with parentheses wherever the
    binding needs them and perhaps elsewhere. */
module ExprSoundness {
  import opened Wrappers
  import opened ExprGrammar
  import opened ExprRoundTrip

  /** A tree with the tokens of its leaves and with the parentheses written around its parts. */
  datatype Form = Atom(tokens: Tokens, tree: Tree) | Node(val: string, kids: seq<Form>) | Paren(inner: Form)

  function Erase(f: Form): Tree
    decreases f, 0
  {
    match f
    case Atom(_, t) => t
    case Node(o, ks) => Op(o, EraseAll(ks))
    case Paren(g) => Erase(g)
  }

  function EraseAll(ks: seq<Form>): (cs: seq<Tree>)
    ensures |cs| == |ks|
    decreases ks, 0
  {
    if ks == [] then [] else [Erase(ks[0])] + EraseAll(ks[1..])
  }

  /** How tightly a form binds: in parentheses, as a primary. */
  function Binding(f: Form): nat {
    if f.Node? then Level(Erase(f)) else 6
  }

  /** The name of a table or column that is not after a dot. */
  predicate IsName(t: Token) {
    t.Ident? || t == Operator("*")
  }

  /** The tokens of a literal, of a column, and of a column with its table. */
  predicate Spells(ts: Tokens, t: Tree) {
    || (|ts| == 1 && ts[0].Str? && t == Text(ts[0].value))
    || (|ts| == 1 && ts[0].Number? && t == Num(ts[0].value))
    || (|ts| == 1 && IsName(ts[0]) && t == Column(None, ts[0].value))
    || (|ts| == 3 && IsName(ts[0]) && ts[1] == Punct(".") && (ts[2].Ident? || ts[2].Keyword? || Star(ts[2]))
        && t == Column(Some(ts[0].value), ts[2].value))
  }

  /** How tightly child `i` of an operator that binds at `level` must bind to stand without parentheses. */
  function Needed(level: nat, i: nat): nat {
    if level == 6 then 6 else if level == 3 then 4 else if level == 2 then 3 else if i == 0 then level else level + 1
  }

  /** Parentheses stand wherever they are needed. */
  predicate Formed(f: Form)
    decreases f
  {
    match f
    case Atom(ts, t) => Spells(ts, t)
    case Paren(g) => Formed(g)
    case Node(_, ks) =>
      && Shaped(Erase(f)) && (forall k | k in ks :: Formed(k))
      && forall i: nat | i < |ks| :: Binding(ks[i]) >= Needed(Level(Erase(f)), i)
  }

  function Spelling(f: Form): Tokens
    requires Formed(f)
    decreases f, 1
  {
    match f
    case Atom(ts, _) => ts
    case Paren(g) => [Punct("(")] + (Spelling(g) + [Punct(")")])
    case Node(o, ks) =>
      var level := Level(Erase(f));
      if level == 6 then [Operator("-")] + Spelling(ks[0])
      else if level >= 4 then Spelling(ks[0]) + ([Operator(o)] + Spelling(ks[1]))
      else if level == 2 then [Keyword("NOT")] + Spelling(ks[0])
      else if level == 1 then Spelling(ks[0]) + ([Keyword("AND")] + Spelling(ks[1]))
      else if level == 0 then Spelling(ks[0]) + ([Keyword("OR")] + Spelling(ks[1]))
      else if o == "IN" then Spelling(ks[0]) + ([Keyword("IN")] + ([Punct("(")] + (SpellingList(ks[1..]) + [Punct(")")])))
      else if o == "BETWEEN" then
        Spelling(ks[0]) + ([Keyword("BETWEEN")] + (Spelling(ks[1]) + ([Keyword("AND")] + Spelling(ks[2]))))
      else Spelling(ks[0]) + ([if o == "LIKE" then Keyword(o) else Operator(o)] + Spelling(ks[1]))
  }

  function SpellingList(ks: seq<Form>): Tokens
    requires ks != [] && forall k | k in ks :: Formed(k)
    decreases ks, 0
  {
    if |ks| == 1 then Spelling(ks[0]) else Spelling(ks[0]) + ([Punct(",")] + SpellingList(ks[1..]))
  }

  /** The tokens from `i` to the end of what was parsed spell its tree, bound at least as tightly as `level`. */
  ghost predicate Derives(ts: Tokens, i: nat, p: Parsed, f: Form, level: nat) {
    && i <= p.end <= |ts| && Formed(f) && Binding(f) >= level && Erase(f) == p.tree
    && ts[i..p.end] == Spelling(f)
  }

  // ---- putting parts together ----

  lemma EraseTwo(a: Form, b: Form)
    ensures EraseAll([a]) == [Erase(a)] && EraseAll([a, b]) == [Erase(a), Erase(b)]
  {
    assert [a][1..] == [] && [a, b][1..] == [b] && [b][1..] == [];
  }

  lemma EraseThree(a: Form, b: Form, c: Form)
    ensures EraseAll([a, b, c]) == [Erase(a), Erase(b), Erase(c)]
  {
    EraseTwo(b, c);
    assert [a, b, c][1..] == [b, c];
  }

  /** The token of a binary operator. */
  function Sign(o: string): Token {
    if o in {"AND", "OR", "LIKE"} then Keyword(o) else Operator(o)
  }

  /** How tightly a binary operator binds. */
  function Rank(o: string): nat {
    if o in FACTORS then 5 else if o in TERMS then 4 else if o == "AND" then 1 else if o == "OR" then 0 else 3
  }

  predicate IsBinary(o: string) {
    o in FACTORS || o in TERMS || o in RELATIONS || o == "LIKE" || o == "AND" || o == "OR"
  }

  lemma BinaryForm(o: string, a: Form, b: Form)
    requires IsBinary(o) && Formed(a) && Formed(b) && Binding(a) >= Needed(Rank(o), 0) && Binding(b) >= Needed(Rank(o), 1)
    ensures var f := Node(o, [a, b]);
            && Formed(f) && Binding(f) == Rank(o) && Erase(f) == Op(o, [Erase(a), Erase(b)])
            && Spelling(f) == Spelling(a) + ([Sign(o)] + Spelling(b))
  {
    EraseTwo(a, b);
    Words();
    assert forall k | k in [a, b] :: k == a || k == b;
  }

  lemma Words()
    ensures "AND" !in FACTORS + TERMS + RELATIONS && "OR" !in FACTORS + TERMS + RELATIONS && "LIKE" !in FACTORS + TERMS + RELATIONS
    ensures "IN" !in FACTORS + TERMS + RELATIONS && "BETWEEN" !in FACTORS + TERMS + RELATIONS && "NOT" !in FACTORS + TERMS + RELATIONS
    ensures |"AND"| == 3 && |"OR"| == 2 && |"LIKE"| == 4 && |"IN"| == 2 && |"BETWEEN"| == 7 && |"NOT"| == 3 && "AND"[0] == 'A'
    ensures "OR"[0] == 'O' && "IN"[0] == 'I' && "NOT"[0] == 'N' && "*"[0] == '*' && "/"[0] == '/' && "%"[0] == '%'
    ensures "+"[0] == '+' && "-"[0] == '-' && FACTORS !! TERMS && FACTORS !! RELATIONS && TERMS !! RELATIONS
  {
    assert forall o | o in FACTORS + TERMS + RELATIONS :: o[0] in {'*', '/', '%', '+', '-', '=', '<', '>', '!'};
    assert "LIKE"[0] == 'L' && "BETWEEN"[0] == 'B';
  }

  /** A left side, an operator and a right side that follow one another. */
  lemma Joined(ts: Tokens, start: nat, i: nat, o: string, a: Form, left: Tree, b: Form, right: Parsed)
    requires IsBinary(o) && i < |ts| && ts[i] == Sign(o)
    requires Derives(ts, start, Parsed(left, i), a, Needed(Rank(o), 0)) && Derives(ts, i + 1, right, b, Needed(Rank(o), 1))
    ensures Derives(ts, start, Parsed(Op(o, [left, right.tree]), right.end), Node(o, [a, b]), Rank(o))
  {
    hide Formed, Spelling, Binding, Erase, IsBinary, Rank, Sign, Needed;
    BinaryForm(o, a, b);
    assert ts[start..right.end] == ts[start..i] + ([ts[i]] + ts[i + 1..right.end]);
  }

  lemma PrefixForm(o: string, a: Form)
    requires Formed(a) && ((o == "-" && Binding(a) >= 6) || (o == "NOT" && Binding(a) >= 3))
    ensures var f := Node(o, [a]);
            && Formed(f) && Binding(f) == (if o == "-" then 6 else 2) && Erase(f) == Op(o, [Erase(a)])
            && Spelling(f) == [if o == "-" then Operator(o) else Keyword(o)] + Spelling(a)
  {
    EraseTwo(a, a);
    Words();
    assert forall k | k in [a] :: k == a;
  }

  lemma Prefixed(ts: Tokens, i: nat, o: string, a: Form, p: Parsed)
    requires i < |ts| && ((o == "-" && ts[i] == Operator(o) && Derives(ts, i + 1, p, a, 6))
                          || (o == "NOT" && ts[i] == Keyword(o) && Derives(ts, i + 1, p, a, 3)))
    ensures Derives(ts, i, Parsed(Op(o, [p.tree]), p.end), Node(o, [a]), if o == "-" then 6 else 2)
  {
    hide Formed, Spelling, Binding, Erase;
    PrefixForm(o, a);
    assert ts[i..p.end] == [ts[i]] + ts[i + 1..p.end];
    assert o == "NOT" ==> o != "-" by { Words(); }
  }

  lemma Enclosed(ts: Tokens, i: nat, a: Form, p: Parsed)
    requires i < |ts| && ts[i] == Punct("(") && Derives(ts, i + 1, p, a, 0) && Is(ts, p.end, Punct(")"))
    ensures Derives(ts, i, Parsed(p.tree, p.end + 1), Paren(a), 6)
  {
    assert ts[i..p.end + 1] == [ts[i]] + (ts[i + 1..p.end] + [ts[p.end]]);
  }

  // ---- lists and ranges ----

  ghost predicate Operands(ks: seq<Form>) {
    forall i | 0 <= i < |ks| :: Formed(ks[i]) && Binding(ks[i]) >= 4
  }

  lemma OperandsFormed(ks: seq<Form>)
    requires Operands(ks)
    ensures forall k | k in ks :: Formed(k) && Binding(k) >= 4
  {
    hide Formed, Binding;
  }

  lemma MoreOperands(a: Form, ks: seq<Form>)
    requires Formed(a) && Binding(a) >= 4 && Operands(ks)
    ensures Operands([a] + ks) && EraseAll([a] + ks) == [Erase(a)] + EraseAll(ks)
    ensures Operands([a]) && EraseAll([a]) == [Erase(a)]
  {
    hide Formed, Binding, Erase;
    assert ([a] + ks)[1..] == ks && [a][1..] == [];
  }

  /** The tokens from `i` to `end` spell a list of operands with commas between them. */
  ghost predicate DerivesList(ts: Tokens, i: nat, cs: seq<Tree>, end: nat, ks: seq<Form>) {
    && i <= end <= |ts| && ks != [] && Operands(ks) && EraseAll(ks) == cs
    && (forall k | k in ks :: Formed(k)) && ts[i..end] == SpellingList(ks)
  }

  lemma ListOne(ts: Tokens, i: nat, a: Form, p: Parsed)
    requires Derives(ts, i, p, a, 4)
    ensures DerivesList(ts, i, [p.tree], p.end, [a])
  {
    hide Formed, Binding, Erase, Spelling;
    MoreOperands(a, []);
    assert forall k | k in [a] :: k == a;
  }

  lemma ListMore(ts: Tokens, i: nat, a: Form, p: Parsed, ks: seq<Form>, cs: seq<Tree>, end: nat)
    requires Derives(ts, i, p, a, 4) && Is(ts, p.end, Punct(",")) && DerivesList(ts, p.end + 1, cs, end, ks)
    ensures DerivesList(ts, i, [p.tree] + cs, end, [a] + ks)
  {
    hide Formed, Binding, Erase, Spelling;
    MoreOperands(a, ks);
    OperandsFormed([a] + ks);
    ListSpells(a, ks);
    assert ts[i..end] == ts[i..p.end] + ([ts[p.end]] + ts[p.end + 1..end]);
  }

  lemma ListSpells(a: Form, ks: seq<Form>)
    requires ks != [] && Formed(a) && forall k | k in [a] + ks :: Formed(k)
    requires forall k | k in ks :: Formed(k)
    ensures SpellingList([a] + ks) == Spelling(a) + ([Punct(",")] + SpellingList(ks))
  {
    hide Formed, Spelling;
    assert ([a] + ks)[0] == a && ([a] + ks)[1..] == ks;
  }

  lemma InForm(a: Form, ks: seq<Form>)
    requires ks != [] && Formed(a) && Binding(a) >= 4 && Operands(ks) && forall k | k in ks :: Formed(k)
    ensures var f := Node("IN", [a] + ks);
            && Formed(f) && Binding(f) == 3 && Erase(f) == Op("IN", [Erase(a)] + EraseAll(ks))
            && Spelling(f) == Spelling(a) + ([Keyword("IN")] + ([Punct("(")] + (SpellingList(ks) + [Punct(")")])))
  {
    hide Operands, EraseAll;
    MoreOperands(a, ks);
    OperandsFormed([a] + ks);
    Words();
    var all := [a] + ks;
    assert all[0] == a && all[1..] == ks;
    assert forall i: nat | i < |all| :: all[i] in all;
  }

  lemma BetweenForm(a: Form, b: Form, c: Form)
    requires Operands([a, b, c])
    ensures var f := Node("BETWEEN", [a, b, c]);
            && Formed(f) && Binding(f) == 3 && Erase(f) == Op("BETWEEN", [Erase(a), Erase(b), Erase(c)])
            && Formed(a) && Formed(b) && Formed(c)
            && Spelling(f) == Spelling(a) + ([Keyword("BETWEEN")] + (Spelling(b) + ([Keyword("AND")] + Spelling(c))))
  {
    OperandsFormed([a, b, c]);
    EraseThree(a, b, c);
    Words();
    assert [a, b, c][0] == a && [a, b, c][1] == b && [a, b, c][2] == c;
  }

  lemma InList(ts: Tokens, start: nat, i: nat, a: Form, left: Tree, ks: seq<Form>, cs: seq<Tree>, end: nat)
    requires Derives(ts, start, Parsed(left, i), a, 4) && Is(ts, i, Keyword("IN")) && Is(ts, i + 1, Punct("("))
    requires DerivesList(ts, i + 2, cs, end, ks) && Is(ts, end, Punct(")"))
    ensures Derives(ts, start, Parsed(Op("IN", [left] + cs), end + 1), Node("IN", [a] + ks), 3)
  {
    hide Formed, Binding, Erase, Spelling, Operands, SpellingList;
    InForm(a, ks);
    assert ts[start..end + 1] == ts[start..i] + ([ts[i]] + ([ts[i + 1]] + (ts[i + 2..end] + [ts[end]])));
  }

  lemma InRange(ts: Tokens, start: nat, i: nat, a: Form, left: Tree, b: Form, lower: Parsed, c: Form, upper: Parsed)
    requires Derives(ts, start, Parsed(left, i), a, 4) && Is(ts, i, Keyword("BETWEEN")) && Derives(ts, i + 1, lower, b, 4)
    requires Is(ts, lower.end, Keyword("AND")) && Derives(ts, lower.end + 1, upper, c, 4)
    ensures Derives(ts, start, Parsed(Op("BETWEEN", [left, lower.tree, upper.tree]), upper.end), Node("BETWEEN", [a, b, c]), 3)
  {
    hide Formed, Binding, Erase, Spelling;
    BetweenForm(a, b, c);
    assert ts[start..upper.end]
        == ts[start..i] + ([ts[i]] + (ts[i + 1..lower.end] + ([ts[lower.end]] + ts[lower.end + 1..upper.end])));
  }

  // ---- the descent ----

  lemma {:induction false} PrimarySound(ts: Tokens, i: nat) returns (f: Form)
    requires Primary(ts, i).Some?
    ensures Derives(ts, i, Primary(ts, i).value, f, 6)
    decreases Left(ts, i), 0
  {
    var p := Primary(ts, i).value;
    if ts[i] == Operator("-") {
      var a := PrimarySound(ts, i + 1);
      Prefixed(ts, i, "-", a, Primary(ts, i + 1).value);
      f := Node("-", [a]);
    } else if ts[i].Punct? {
      var a := OrSound(ts, i + 1);
      Enclosed(ts, i, a, Or(ts, i + 1).value);
      f := Paren(a);
    } else {
      f := Atom(ts[i..p.end], p.tree);
    }
  }

  lemma {:induction false} MultiplicativeSound(ts: Tokens, i: nat) returns (f: Form)
    requires Multiplicative(ts, i).Some?
    ensures Derives(ts, i, Multiplicative(ts, i).value, f, 5)
    decreases Left(ts, i), 2
  {
    hide Derives;
    var first := Primary(ts, i).value;
    var a := PrimarySound(ts, i);
    Looser(ts, i, first, a, 6, 5);
    f := FactorsSound(ts, i, a, first.tree, first.end);
  }

  lemma Looser(ts: Tokens, i: nat, p: Parsed, f: Form, from: nat, to: nat)
    requires Derives(ts, i, p, f, from) && to <= from
    ensures Derives(ts, i, p, f, to)
  {
  }

  lemma Ends(ts: Tokens, i: nat, p: Parsed, f: Form, level: nat)
    requires Derives(ts, i, p, f, level)
    ensures i <= p.end <= |ts|
  {
  }

  lemma {:induction false} FactorsSound(ts: Tokens, start: nat, a: Form, left: Tree, i: nat) returns (f: Form)
    requires i <= |ts| && Derives(ts, start, Parsed(left, i), a, 5) && Factors(ts, left, i).Some?
    ensures Derives(ts, start, Factors(ts, left, i).value, f, 5)
    decreases Left(ts, i), 1
  {
    hide Derives;
    f := a;
    if IsOperator(ts, i, FACTORS) {
      var right := Primary(ts, i + 1).value;
      var b := PrimarySound(ts, i + 1);
      Words();
      Joined(ts, start, i, ts[i].value, a, left, b, right);
      f := FactorsSound(ts, start, Node(ts[i].value, [a, b]), Op(ts[i].value, [left, right.tree]), right.end);
    }
  }

  lemma {:induction false} AdditiveSound(ts: Tokens, i: nat) returns (f: Form)
    requires Additive(ts, i).Some?
    ensures Derives(ts, i, Additive(ts, i).value, f, 4)
    decreases Left(ts, i), 4
  {
    hide Derives;
    var first := Multiplicative(ts, i).value;
    var a := MultiplicativeSound(ts, i);
    Looser(ts, i, first, a, 5, 4);
    f := TermsSound(ts, i, a, first.tree, first.end);
  }

  lemma {:induction false} TermsSound(ts: Tokens, start: nat, a: Form, left: Tree, i: nat) returns (f: Form)
    requires i <= |ts| && Derives(ts, start, Parsed(left, i), a, 4) && Terms(ts, left, i).Some?
    ensures Derives(ts, start, Terms(ts, left, i).value, f, 4)
    decreases Left(ts, i), 3
  {
    hide Derives;
    f := a;
    if IsOperator(ts, i, TERMS) {
      var right := Multiplicative(ts, i + 1).value;
      var b := MultiplicativeSound(ts, i + 1);
      Words();
      Joined(ts, start, i, ts[i].value, a, left, b, right);
      f := TermsSound(ts, start, Node(ts[i].value, [a, b]), Op(ts[i].value, [left, right.tree]), right.end);
    }
  }

  lemma {:induction false} ComparisonSound(ts: Tokens, i: nat) returns (f: Form)
    requires Comparison(ts, i).Some?
    ensures Derives(ts, i, Comparison(ts, i).value, f, 3)
    decreases Left(ts, i), 6
  {
    hide Derives;
    var left := Additive(ts, i).value;
    var a := AdditiveSound(ts, i);
    f := ComparedSound(ts, i, a, left.tree, left.end);
  }

  lemma {:induction false} ComparedSound(ts: Tokens, start: nat, a: Form, left: Tree, i: nat) returns (f: Form)
    requires i <= |ts| && Derives(ts, start, Parsed(left, i), a, 4) && Compared(ts, left, i).Some?
    ensures Derives(ts, start, Compared(ts, left, i).value, f, 3)
    decreases Left(ts, i), 5
  {
    hide Derives, DerivesList;
    if IsOperator(ts, i, RELATIONS) || Is(ts, i, Keyword("LIKE")) {
      var right := Additive(ts, i + 1).value;
      var b := AdditiveSound(ts, i + 1);
      Words();
      Joined(ts, start, i, ts[i].value, a, left, b, right);
      f := Node(ts[i].value, [a, b]);
    } else if Is(ts, i, Keyword("IN")) {
      var values := Values(ts, i + 2).value;
      var ks := ValuesSound(ts, i + 2);
      InList(ts, start, i, a, left, ks, values.0, values.1);
      f := Node("IN", [a] + ks);
    } else if Is(ts, i, Keyword("BETWEEN")) {
      var lower := Additive(ts, i + 1).value;
      var b := AdditiveSound(ts, i + 1);
      var c := AdditiveSound(ts, lower.end + 1);
      InRange(ts, start, i, a, left, b, lower, c, Additive(ts, lower.end + 1).value);
      f := Node("BETWEEN", [a, b, c]);
    } else {
      Looser(ts, start, Parsed(left, i), a, 4, 3);
      f := a;
    }
  }

  lemma {:induction false} ValuesSound(ts: Tokens, i: nat) returns (ks: seq<Form>)
    requires Values(ts, i).Some?
    ensures DerivesList(ts, i, Values(ts, i).value.0, Values(ts, i).value.1, ks)
    decreases Left(ts, i), 5
  {
    hide Derives, DerivesList;
    var first := Additive(ts, i).value;
    var a := AdditiveSound(ts, i);
    if Is(ts, first.end, Punct(",")) {
      var rest := ValuesSound(ts, first.end + 1);
      var values := Values(ts, first.end + 1).value;
      ListMore(ts, i, a, first, rest, values.0, values.1);
      ks := [a] + rest;
    } else {
      ListOne(ts, i, a, first);
      ks := [a];
    }
  }

  lemma {:induction false} NotSound(ts: Tokens, i: nat) returns (f: Form)
    requires Not(ts, i).Some?
    ensures Derives(ts, i, Not(ts, i).value, f, 2)
    decreases Left(ts, i), 7
  {
    hide Derives;
    if Is(ts, i, Keyword("NOT")) {
      var a := ComparisonSound(ts, i + 1);
      Words();
      Prefixed(ts, i, "NOT", a, Comparison(ts, i + 1).value);
      f := Node("NOT", [a]);
    } else {
      f := ComparisonSound(ts, i);
      Looser(ts, i, Comparison(ts, i).value, f, 3, 2);
    }
  }

  lemma {:induction false} AndSound(ts: Tokens, i: nat) returns (f: Form)
    requires And(ts, i).Some?
    ensures Derives(ts, i, And(ts, i).value, f, 1)
    decreases Left(ts, i), 9
  {
    hide Derives;
    var first := Not(ts, i).value;
    var a := NotSound(ts, i);
    Looser(ts, i, first, a, 2, 1);
    f := ConjunctsSound(ts, i, a, first.tree, first.end);
  }

  lemma {:induction false} ConjunctsSound(ts: Tokens, start: nat, a: Form, left: Tree, i: nat) returns (f: Form)
    requires i <= |ts| && Derives(ts, start, Parsed(left, i), a, 1) && Conjuncts(ts, left, i).Some?
    ensures Derives(ts, start, Conjuncts(ts, left, i).value, f, 1)
    decreases Left(ts, i), 8
  {
    hide Derives;
    f := a;
    if Is(ts, i, Keyword("AND")) {
      var right := Not(ts, i + 1).value;
      var b := NotSound(ts, i + 1);
      Words();
      Joined(ts, start, i, "AND", a, left, b, right);
      f := ConjunctsSound(ts, start, Node("AND", [a, b]), Op("AND", [left, right.tree]), right.end);
    }
  }

  lemma {:induction false} OrSound(ts: Tokens, i: nat) returns (f: Form)
    requires Or(ts, i).Some?
    ensures Derives(ts, i, Or(ts, i).value, f, 0)
    decreases Left(ts, i), 11
  {
    hide Derives;
    var first := And(ts, i).value;
    var a := AndSound(ts, i);
    Looser(ts, i, first, a, 1, 0);
    f := DisjunctsSound(ts, i, a, first.tree, first.end);
  }

  lemma {:induction false} DisjunctsSound(ts: Tokens, start: nat, a: Form, left: Tree, i: nat) returns (f: Form)
    requires i <= |ts| && Derives(ts, start, Parsed(left, i), a, 0) && Disjuncts(ts, left, i).Some?
    ensures Derives(ts, start, Disjuncts(ts, left, i).value, f, 0)
    decreases Left(ts, i), 10
  {
    hide Derives;
    f := a;
    if Is(ts, i, Keyword("OR")) {
      var right := And(ts, i + 1).value;
      var b := AndSound(ts, i + 1);
      Words();
      Joined(ts, start, i, "OR", a, left, b, right);
      f := DisjunctsSound(ts, start, Node("OR", [a, b]), Op("OR", [left, right.tree]), right.end);
    }
  }

  // ---- the trees the parser returns ----

  lemma {:induction false} ErasesGrammatical(f: Form)
    requires Formed(f)
    ensures Grammatical(Erase(f))
    decreases f, 0
  {
    match f
    case Atom(_, _) =>
    case Paren(g) => ErasesGrammatical(g);
    case Node(_, ks) => AllGrammatical(ks);
  }

  lemma {:induction false} AllGrammatical(ks: seq<Form>)
    requires forall k | k in ks :: Formed(k)
    ensures forall c | c in EraseAll(ks) :: Grammatical(c)
    decreases ks, 0
  {
    if ks != [] {
      ErasesGrammatical(ks[0]);
      AllGrammatical(ks[1..]);
    }
  }

  /** The parser returns only trees of the grammar, which rendered and parsed come back. */
  lemma ParsedIsGrammatical(ts: Tokens, i: nat)
    requires Or(ts, i).Some?
    ensures Grammatical(Or(ts, i).value.tree)
  {
    var f := OrSound(ts, i);
    ErasesGrammatical(f);
  }
}
