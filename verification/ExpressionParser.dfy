/** `ExpressionParser`: the token cursor, and the descent as methods that move it. `None` stands for a raised error. */
module ExpressionParser {
  import opened Wrappers
  import opened ExprGrammar

  class Parser {
    const tokens: Tokens
    var position: nat
    var currentToken: Option<Token>

    predicate Valid()
      reads this
    {
      currentToken == if position < |tokens| then Some(tokens[position]) else None
    }

    constructor (tokens: Tokens)
      ensures Valid() && this.tokens == tokens && position == 0
    {
      this.tokens, position := tokens, 0;
      currentToken := if |tokens| > 0 then Some(tokens[0]) else None;
    }

    method Advance()
      requires Valid()
      modifies this
      ensures Valid() && position == old(position) + 1
    {
      position := position + 1;
      if position < |tokens| {
        currentToken := Some(tokens[position]);
      } else {
        currentToken := None;
      }
    }

    predicate Match(t: Token)
      reads this
    {
      currentToken == Some(t)
    }

    predicate MatchOperator(ops: set<string>)
      reads this
    {
      currentToken.Some? && currentToken.value.Operator? && currentToken.value.value in ops
    }

    /** The outcome of a descent that started at `i`: the tree it found and where it stopped, or an error. */
    predicate Outcome(r: Option<Tree>, p: Option<Parsed>)
      reads this
    {
      Valid() && (r.Some? <==> p.Some?) && (p.Some? ==> r.value == p.value.tree && position == p.value.end)
    }

    method ParseExpression() returns (r: Option<Tree>)
      requires Valid()
      modifies this
      ensures Outcome(r, Or(tokens, old(position)))
      decreases Left(tokens, position), 12
    {
      r := ParseOr();
    }

    method ParseOr() returns (r: Option<Tree>)
      requires Valid()
      modifies this
      ensures Outcome(r, Or(tokens, old(position)))
      decreases Left(tokens, position), 11
    {
      r := ParseAnd();
      if r.None? {
        return;
      }
      while Match(Keyword("OR"))
        invariant Valid() && r.Some? && position <= |tokens|
        invariant Disjuncts(tokens, r.value, position) == Or(tokens, old(position)) && position > old(position)
        decreases |tokens| - position
      {
        Advance();
        var right := ParseAnd();
        if right.None? {
          return None;
        }
        r := Some(Op("OR", [r.value, right.value]));
      }
    }

    method ParseAnd() returns (r: Option<Tree>)
      requires Valid()
      modifies this
      ensures Outcome(r, And(tokens, old(position)))
      decreases Left(tokens, position), 9
    {
      r := ParseNot();
      if r.None? {
        return;
      }
      while Match(Keyword("AND"))
        invariant Valid() && r.Some? && position <= |tokens|
        invariant Conjuncts(tokens, r.value, position) == And(tokens, old(position)) && position > old(position)
        decreases |tokens| - position
      {
        Advance();
        var right := ParseNot();
        if right.None? {
          return None;
        }
        r := Some(Op("AND", [r.value, right.value]));
      }
    }

    method ParseNot() returns (r: Option<Tree>)
      requires Valid()
      modifies this
      ensures Outcome(r, Not(tokens, old(position)))
      decreases Left(tokens, position), 7
    {
      if Match(Keyword("NOT")) {
        Advance();
        var operand := ParseComparison();
        return if operand.None? then None else Some(Op("NOT", [operand.value]));
      }
      r := ParseComparison();
    }

    method ParseComparison() returns (r: Option<Tree>)
      requires Valid()
      modifies this
      ensures Outcome(r, Comparison(tokens, old(position)))
      decreases Left(tokens, position), 6
    {
      r := ParseAdditive();
      if r.Some? {
        r := ParseCompared(r.value);
      }
    }

    /** The part of a comparison after its left operand. */
    method ParseCompared(left: Tree) returns (r: Option<Tree>)
      requires Valid() && position <= |tokens|
      modifies this
      ensures Outcome(r, Compared(tokens, left, old(position)))
      decreases Left(tokens, position), 5
    {
      if MatchOperator(RELATIONS) || Match(Keyword("LIKE")) {
        var op := currentToken.value.value;
        Advance();
        var right := ParseAdditive();
        return if right.None? then None else Some(Op(op, [left, right.value]));
      }
      if Match(Keyword("IN")) {
        Advance();
        if !Match(Punct("(")) {
          return None;
        }
        Advance();
        var values := ParseValues();
        if values.None? || !Match(Punct(")")) {
          return None;
        }
        Advance();
        return Some(Op("IN", [left] + values.value));
      }
      if Match(Keyword("BETWEEN")) {
        Advance();
        var lower := ParseAdditive();
        if lower.None? || !Match(Keyword("AND")) {
          return None;
        }
        Advance();
        var upper := ParseAdditive();
        return if upper.None? then None else Some(Op("BETWEEN", [left, lower.value, upper.value]));
      }
      r := Some(left);
    }

    /** The values before and after, as `IN` collects them. */
    ghost predicate ValuesFrom(before: seq<Tree>, rest: Option<(seq<Tree>, nat)>, all: Option<(seq<Tree>, nat)>) {
      (rest.Some? <==> all.Some?) && (rest.Some? ==> all.value == (before + rest.value.0, rest.value.1))
    }

    method ParseValues() returns (r: Option<seq<Tree>>)
      requires Valid()
      modifies this
      ensures Valid() && (r.Some? <==> Values(tokens, old(position)).Some?)
      ensures r.Some? ==> (r.value, position) == Values(tokens, old(position)).value
      decreases Left(tokens, position), 5
    {
      var values: seq<Tree> := [];
      ghost var all := Values(tokens, position);
      assert all.Some? ==> values + all.value.0 == all.value.0;
      while true
        invariant Valid() && position >= old(position) && ValuesFrom(values, Values(tokens, position), all)
        invariant all == Values(tokens, old(position))
        decreases Left(tokens, position)
      {
        var value := ParseAdditive();
        if value.None? {
          return None;
        }
        ghost var rest := Values(tokens, position + 1);
        assert rest.Some? ==> values + ([value.value] + rest.value.0) == values + [value.value] + rest.value.0;
        values := values + [value.value];
        if !Match(Punct(",")) {
          break;
        }
        Advance();
      }
      r := Some(values);
    }

    method ParseAdditive() returns (r: Option<Tree>)
      requires Valid()
      modifies this
      ensures Outcome(r, Additive(tokens, old(position)))
      decreases Left(tokens, position), 4
    {
      r := ParseMultiplicative();
      if r.None? {
        return;
      }
      while MatchOperator(TERMS)
        invariant Valid() && r.Some? && position <= |tokens|
        invariant Terms(tokens, r.value, position) == Additive(tokens, old(position)) && position > old(position)
        decreases |tokens| - position
      {
        var op := currentToken.value.value;
        Advance();
        var right := ParseMultiplicative();
        if right.None? {
          return None;
        }
        r := Some(Op(op, [r.value, right.value]));
      }
    }

    method ParseMultiplicative() returns (r: Option<Tree>)
      requires Valid()
      modifies this
      ensures Outcome(r, Multiplicative(tokens, old(position)))
      decreases Left(tokens, position), 2
    {
      r := ParsePrimary();
      if r.None? {
        return;
      }
      while MatchOperator(FACTORS)
        invariant Valid() && r.Some? && position <= |tokens|
        invariant Factors(tokens, r.value, position) == Multiplicative(tokens, old(position)) && position > old(position)
        decreases |tokens| - position
      {
        var op := currentToken.value.value;
        Advance();
        var right := ParsePrimary();
        if right.None? {
          return None;
        }
        r := Some(Op(op, [r.value, right.value]));
      }
    }

    method ParsePrimary() returns (r: Option<Tree>)
      requires Valid()
      modifies this
      ensures Outcome(r, Primary(tokens, old(position)))
      decreases Left(tokens, position), 0
    {
      if Match(Operator("-")) {
        Advance();
        var e := ParsePrimary();
        return if e.None? then None else Some(Op("-", [e.value]));
      }
      if Match(Punct("(")) {
        Advance();
        var e := ParseExpression();
        if e.None? || !Match(Punct(")")) {
          return None;
        }
        Advance();
        return e;
      }
      if currentToken.None? {
        return None;
      }
      var token := currentToken.value;
      if token.Str? {
        Advance();
        return Some(Text(token.value));
      }
      if token.Number? {
        Advance();
        return Some(Num(token.value));
      }
      if token.Ident? || token == Operator("*") {
        Advance();
        if !Match(Punct(".")) {
          return Some(Column(None, token.value));
        }
        Advance();
        if currentToken.None? || !(currentToken.value.Ident? || currentToken.value.Keyword? || Star(currentToken.value)) {
          return None;
        }
        var column := currentToken.value.value;
        Advance();
        return Some(Column(Some(token.value), column));
      }
      r := None;
    }
  }
}
