/** Expressions: the recursive descent, and the rendering it undoes. */
module ExprGrammar {
  import opened Wrappers

  datatype Token = Keyword(value: string) | Operator(value: string) | Punct(value: string)
                 | Str(value: string) | Number(value: string) | Ident(value: string) | Eof

  /** A literal number is its token's text, from which its value is computed. */
  datatype Tree = Column(table: Option<string>, name: string) | Text(value: string) | Num(value: string)
                | Op(val: string, childs: seq<Tree>)

  type Tokens = seq<Token>

  // ---- the descent ----

  datatype Parsed = Parsed(tree: Tree, end: nat)

  function Left(ts: Tokens, i: nat): nat {
    if i <= |ts| then |ts| - i else 0
  }

  predicate Is(ts: Tokens, i: nat, t: Token) {
    i < |ts| && ts[i] == t
  }

  predicate IsOperator(ts: Tokens, i: nat, ops: set<string>) {
    i < |ts| && ts[i].Operator? && ts[i].value in ops
  }

  const FACTORS := {"*", "/", "%"}
  const TERMS := {"+", "-"}
  const RELATIONS := {"=", "<>", "!=", "<", "<=", ">", ">="}

  predicate Star(t: Token) {
    t == Operator("*") || t == Str("*")
  }

  function Primary(ts: Tokens, i: nat): (r: Option<Parsed>)
    ensures r.Some? ==> i < r.value.end <= |ts|
    decreases Left(ts, i), 0
  {
    if i >= |ts| then None
    else
      match ts[i]
      case Str(s) => Some(Parsed(Text(s), i + 1))
      case Number(s) => Some(Parsed(Num(s), i + 1))
      case Ident(s) => Qualified(ts, i, s)
      case Operator(o) =>
        if o == "-" then
          var e := Primary(ts, i + 1);
          if e.None? then None else Some(Parsed(Op("-", [e.value.tree]), e.value.end))
        else if o == "*" then Qualified(ts, i, o) else None
      case Punct(p) =>
        if p != "(" then None
        else
          var e := Or(ts, i + 1);
          if e.Some? && Is(ts, e.value.end, Punct(")")) then Some(Parsed(e.value.tree, e.value.end + 1)) else None
      case _ => None
  }

  /** A name, and after a dot the name of a column. */
  function Qualified(ts: Tokens, i: nat, name: string): (r: Option<Parsed>)
    requires i < |ts|
    ensures r.Some? ==> i < r.value.end <= |ts|
  {
    if !Is(ts, i + 1, Punct(".")) then Some(Parsed(Column(None, name), i + 1))
    else if i + 2 < |ts| && (ts[i + 2].Ident? || ts[i + 2].Keyword? || Star(ts[i + 2]))
      then Some(Parsed(Column(Some(name), ts[i + 2].value), i + 3))
    else None
  }

  function Multiplicative(ts: Tokens, i: nat): (r: Option<Parsed>)
    ensures r.Some? ==> i < r.value.end <= |ts|
    decreases Left(ts, i), 2
  {
    var first := Primary(ts, i);
    if first.None? then None else Factors(ts, first.value.tree, first.value.end)
  }

  function Factors(ts: Tokens, left: Tree, i: nat): (r: Option<Parsed>)
    requires i <= |ts|
    ensures r.Some? ==> i <= r.value.end <= |ts|
    decreases Left(ts, i), 1
  {
    if !IsOperator(ts, i, FACTORS) then Some(Parsed(left, i))
    else
      var right := Primary(ts, i + 1);
      if right.None? then None else Factors(ts, Op(ts[i].value, [left, right.value.tree]), right.value.end)
  }

  function Additive(ts: Tokens, i: nat): (r: Option<Parsed>)
    ensures r.Some? ==> i < r.value.end <= |ts|
    decreases Left(ts, i), 4
  {
    var first := Multiplicative(ts, i);
    if first.None? then None else Terms(ts, first.value.tree, first.value.end)
  }

  function Terms(ts: Tokens, left: Tree, i: nat): (r: Option<Parsed>)
    requires i <= |ts|
    ensures r.Some? ==> i <= r.value.end <= |ts|
    decreases Left(ts, i), 3
  {
    if !IsOperator(ts, i, TERMS) then Some(Parsed(left, i))
    else
      var right := Multiplicative(ts, i + 1);
      if right.None? then None else Terms(ts, Op(ts[i].value, [left, right.value.tree]), right.value.end)
  }

  function Comparison(ts: Tokens, i: nat): (r: Option<Parsed>)
    ensures r.Some? ==> i < r.value.end <= |ts|
    decreases Left(ts, i), 6
  {
    var left := Additive(ts, i);
    if left.None? then None else Compared(ts, left.value.tree, left.value.end)
  }

  /** What may follow the left side of a comparison. */
  function Compared(ts: Tokens, left: Tree, i: nat): (r: Option<Parsed>)
    requires i <= |ts|
    ensures r.Some? ==> i <= r.value.end <= |ts|
    decreases Left(ts, i), 5
  {
    if IsOperator(ts, i, RELATIONS) || Is(ts, i, Keyword("LIKE")) then
      var right := Additive(ts, i + 1);
      if right.None? then None else Some(Parsed(Op(ts[i].value, [left, right.value.tree]), right.value.end))
    else if Is(ts, i, Keyword("IN")) then
      if !Is(ts, i + 1, Punct("(")) then None
      else
        var values := Values(ts, i + 2);
        if values.Some? && Is(ts, values.value.1, Punct(")"))
          then Some(Parsed(Op("IN", [left] + values.value.0), values.value.1 + 1))
        else None
    else if Is(ts, i, Keyword("BETWEEN")) then
      var lower := Additive(ts, i + 1);
      if lower.None? || !Is(ts, lower.value.end, Keyword("AND")) then None
      else
        var upper := Additive(ts, lower.value.end + 1);
        if upper.None? then None
        else Some(Parsed(Op("BETWEEN", [left, lower.value.tree, upper.value.tree]), upper.value.end))
    else Some(Parsed(left, i))
  }

  function Values(ts: Tokens, i: nat): (r: Option<(seq<Tree>, nat)>)
    ensures r.Some? ==> i < r.value.1 <= |ts|
    decreases Left(ts, i), 5
  {
    var first := Additive(ts, i);
    if first.None? then None
    else if !Is(ts, first.value.end, Punct(",")) then Some(([first.value.tree], first.value.end))
    else
      var rest := Values(ts, first.value.end + 1);
      if rest.None? then None else Some(([first.value.tree] + rest.value.0, rest.value.1))
  }

  function Not(ts: Tokens, i: nat): (r: Option<Parsed>)
    ensures r.Some? ==> i < r.value.end <= |ts|
    decreases Left(ts, i), 7
  {
    if Is(ts, i, Keyword("NOT")) then
      var operand := Comparison(ts, i + 1);
      if operand.None? then None else Some(Parsed(Op("NOT", [operand.value.tree]), operand.value.end))
    else Comparison(ts, i)
  }

  function And(ts: Tokens, i: nat): (r: Option<Parsed>)
    ensures r.Some? ==> i < r.value.end <= |ts|
    decreases Left(ts, i), 9
  {
    var first := Not(ts, i);
    if first.None? then None else Conjuncts(ts, first.value.tree, first.value.end)
  }

  function Conjuncts(ts: Tokens, left: Tree, i: nat): (r: Option<Parsed>)
    requires i <= |ts|
    ensures r.Some? ==> i <= r.value.end <= |ts|
    decreases Left(ts, i), 8
  {
    if !Is(ts, i, Keyword("AND")) then Some(Parsed(left, i))
    else
      var right := Not(ts, i + 1);
      if right.None? then None else Conjuncts(ts, Op("AND", [left, right.value.tree]), right.value.end)
  }

  function Or(ts: Tokens, i: nat): (r: Option<Parsed>)
    ensures r.Some? ==> i < r.value.end <= |ts|
    decreases Left(ts, i), 11
  {
    var first := And(ts, i);
    if first.None? then None else Disjuncts(ts, first.value.tree, first.value.end)
  }

  function Disjuncts(ts: Tokens, left: Tree, i: nat): (r: Option<Parsed>)
    requires i <= |ts|
    ensures r.Some? ==> i <= r.value.end <= |ts|
    decreases Left(ts, i), 10
  {
    if !Is(ts, i, Keyword("OR")) then Some(Parsed(left, i))
    else
      var right := And(ts, i + 1);
      if right.None? then None else Disjuncts(ts, Op("OR", [left, right.value.tree]), right.value.end)
  }
}
