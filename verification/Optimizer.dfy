/** The one rewrite that fires on parsed queries: a cross join under a selection becomes a theta join on
    the first equality found between two tables. */
module Optimizer {
  import opened Wrappers
  import opened ExprGrammar

  datatype Plan =
    | Relation(name: string)
    | Alias(alias: string, name: string)
    | Cross(l: Plan, r: Plan)
    | Theta(l: Plan, r: Plan, on: Tree)
    | Select(src: Plan, cond: Tree)
    | Project(columns: seq<string>, src: Plan)

  // ---- finding a join condition ----

  /** An equality between columns of two different tables. */
  predicate JoinEquality(t: Tree) {
    && t.Op? && t.val == "=" && |t.childs| >= 2
    && t.childs[0].Column? && t.childs[1].Column? && t.childs[0].table.Some? && t.childs[1].table.Some?
    && t.childs[0].table != t.childs[1].table
  }

  function FindEquality(t: Tree): (r: Option<Tree>)
    ensures r.Some? ==> JoinEquality(r.value)
    decreases t, 1
  {
    if JoinEquality(t) then Some(t) else if t.Op? then FindAmong(t.childs) else None
  }

  function FindAmong(ts: seq<Tree>): (r: Option<Tree>)
    ensures r.Some? ==> JoinEquality(r.value)
    decreases ts, 0
  {
    if ts == [] then None
    else
      var first := FindEquality(ts[0]);
      if first.Some? then first else FindAmong(ts[1..])
  }

  function OrElse<T>(a: Option<T>, b: Option<T>): Option<T> {
    if a.Some? then a else b
  }

  /** The search goes through the whole subtree, the conditions of joins included. */
  function Find(p: Plan): (r: Option<Tree>)
    ensures r.Some? ==> JoinEquality(r.value)
  {
    match p
    case Relation(_) => None
    case Alias(_, _) => None
    case Cross(l, r) => OrElse(Find(l), Find(r))
    case Theta(l, r, on) => OrElse(Find(l), OrElse(Find(r), FindEquality(on)))
    case Select(src, cond) => OrElse(Find(src), FindEquality(cond))
    case Project(_, src) => Find(src)
  }

  function Crosses(p: Plan): nat {
    match p
    case Relation(_) => 0
    case Alias(_, _) => 0
    case Cross(l, r) => 1 + Crosses(l) + Crosses(r)
    case Theta(l, r, _) => Crosses(l) + Crosses(r)
    case Select(src, _) => Crosses(src)
    case Project(_, src) => Crosses(src)
  }

  // ---- the rewrite ----

  /** The outermost cross join becomes a theta join on `c`. */
  function Convert(p: Plan, c: Tree): Plan {
    match p
    case Relation(_) => p
    case Alias(_, _) => p
    case Cross(l, r) => Theta(l, r, c)
    case Theta(l, r, on) => if Crosses(l) > 0 then Theta(Convert(l, c), r, on) else Theta(l, Convert(r, c), on)
    case Select(src, cond) => Select(Convert(src, c), cond)
    case Project(cols, src) => Project(cols, Convert(src, c))
  }

  function FirstSelection(p: Plan): Option<Plan> {
    match p
    case Relation(_) => None
    case Alias(_, _) => None
    case Cross(l, r) => OrElse(FirstSelection(l), FirstSelection(r))
    case Theta(l, r, _) => OrElse(FirstSelection(l), FirstSelection(r))
    case Select(_, _) => Some(p)
    case Project(_, src) => FirstSelection(src)
  }

  function Combine(p: Plan): Plan {
    var selection := FirstSelection(p);
    if !p.Project? || selection.None? || Crosses(p) == 0 then p
    else
      var c := Find(selection.value);
      if c.None? then p else Convert(p, c.value)
  }

  const MAX_ITERATIONS := 10

  /** At most `n` iterations, ending when one changes nothing. */
  function Iterate(p: Plan, n: nat): Plan
    decreases n
  {
    if n == 0 || Combine(p) == p then p else Iterate(Combine(p), n - 1)
  }

  method Optimize(p: Plan) returns (q: Plan)
    ensures q == Iterate(p, MAX_ITERATIONS)
  {
    q := p;
    var iteration := 0;
    while iteration < MAX_ITERATIONS
      invariant iteration <= MAX_ITERATIONS && Iterate(q, MAX_ITERATIONS - iteration) == Iterate(p, MAX_ITERATIONS)
    {
      iteration := iteration + 1;
      var before := q;
      q := Combine(q);
      if before == q {
        break;
      }
    }
  }

  // ---- how far it gets ----

  /** Joins of tables, as a FROM clause is parsed: on the right always a table. */
  predicate Joins(p: Plan) {
    match p
    case Relation(_) => true
    case Alias(_, _) => true
    case Cross(l, r) => Joins(l) && (r.Relation? || r.Alias?)
    case Theta(l, r, _) => Joins(l) && (r.Relation? || r.Alias?)
    case Select(_, _) => false
    case Project(_, _) => false
  }

  predicate FromParser(p: Plan) {
    p.Project? && p.src.Select? && Joins(p.src.src)
  }

  lemma {:induction false} ConvertCounts(f: Plan, c: Tree)
    requires Joins(f)
    ensures Joins(Convert(f, c))
    ensures Crosses(Convert(f, c)) == if Crosses(f) > 0 then Crosses(f) - 1 else 0
  {
    if f.Theta? {
      ConvertCounts(f.l, c);
    }
  }

  /** The condition found stays the one found. */
  lemma {:induction false} FindStays(f: Plan, c: Tree)
    requires Joins(f) && JoinEquality(c) && Crosses(f) > 0 && (Find(f).None? || Find(f) == Some(c))
    ensures Find(Convert(f, c)) == Some(c)
  {
    if f.Theta? {
      FindStays(f.l, c);
    }
  }

  /** One iteration on a parsed query converts a cross join, if there is one and a condition. */
  lemma CombineConverts(p: Plan)
    requires FromParser(p)
    ensures var fires := Crosses(p) > 0 && Find(p.src).Some?;
            && FromParser(Combine(p)) && (Combine(p) == p <==> !fires)
            && (fires ==> Combine(p) == Project(p.columns, Select(Convert(p.src.src, Find(p.src).value), p.src.cond)))
            && (fires ==> Crosses(Combine(p)) == Crosses(p) - 1 && Find(Combine(p).src) == Find(p.src))
  {
    assert FirstSelection(p.src) == Some(p.src) && FirstSelection(p) == Some(p.src);
    assert Crosses(p.src) == Crosses(p.src.src) && Crosses(p) == Crosses(p.src);
    if Find(p.src).Some? {
      var f, c := p.src.src, Find(p.src).value;
      assert Convert(p.src, c) == Select(Convert(f, c), p.src.cond);
      assert Convert(p, c) == Project(p.columns, Convert(p.src, c));
      ConvertCounts(f, c);
      if Crosses(f) > 0 {
        FindStays(f, c);
      }
    }
  }

  lemma {:induction false} IterateCounts(p: Plan, n: nat)
    requires FromParser(p)
    ensures var q := Iterate(p, n);
            && FromParser(q) && Find(q.src) == Find(p.src)
            && Crosses(q) == if Find(p.src).None? then Crosses(p) else if Crosses(p) > n then Crosses(p) - n else 0
    decreases n
  {
    CombineConverts(p);
    if n > 0 && Combine(p) != p {
      IterateCounts(Combine(p), n - 1);
    }
  }

  /** The optimizer reaches a plan it would not change exactly if it finds no condition or there are at
      most ten cross joins. */
  lemma FixpointIff(p: Plan)
    requires FromParser(p)
    ensures var q := Iterate(p, MAX_ITERATIONS);
            Combine(q) == q <==> Find(p.src).None? || Crosses(p) <= MAX_ITERATIONS
  {
    IterateCounts(p, MAX_ITERATIONS);
    CombineConverts(Iterate(p, MAX_ITERATIONS));
  }

  /** `n` cross joins of one table. */
  function CrossChain(n: nat): (p: Plan)
    ensures Joins(p) && Crosses(p) == n && Find(p).None?
  {
    if n == 0 then Relation("t") else Cross(CrossChain(n - 1), Alias("u", "t"))
  }

  /** Eleven cross joins under an equality: after ten iterations there is still one to convert. */
  lemma ElevenAreTooMany()
    ensures var equality := Op("=", [Column(Some("t"), "x"), Column(Some("u"), "x")]);
            var p := Project([], Select(CrossChain(11), equality));
            FromParser(p) && Combine(Iterate(p, MAX_ITERATIONS)) != Iterate(p, MAX_ITERATIONS)
  {
    hide Combine, Iterate, CrossChain;
    var equality := Op("=", [Column(Some("t"), "x"), Column(Some("u"), "x")]);
    var chain := CrossChain(11);
    var p := Project([], Select(chain, equality));
    assert Find(p.src) == Some(equality);
    assert Crosses(p) == Crosses(p.src) == 11;
    FixpointIff(p);
  }

  // ---- what is found, and what is converted ----

  /** The equalities below a condition, a node before what is below it. */
  ghost function Equalities(t: Tree): seq<Tree>
    decreases t, 1
  {
    (if JoinEquality(t) then [t] else []) + if t.Op? then EqualitiesAmong(t.childs) else []
  }

  ghost function EqualitiesAmong(ts: seq<Tree>): seq<Tree>
    decreases ts, 0
  {
    if ts == [] then [] else Equalities(ts[0]) + EqualitiesAmong(ts[1..])
  }

  /** The equalities below a plan, the children of each node from the left: a join's condition is its last. */
  ghost function PlanEqualities(p: Plan): seq<Tree> {
    match p
    case Relation(_) => []
    case Alias(_, _) => []
    case Cross(l, r) => PlanEqualities(l) + PlanEqualities(r)
    case Theta(l, r, on) => PlanEqualities(l) + PlanEqualities(r) + Equalities(on)
    case Select(src, cond) => PlanEqualities(src) + Equalities(cond)
    case Project(_, src) => PlanEqualities(src)
  }

  ghost function FirstOf<T>(xs: seq<T>): Option<T> {
    if xs == [] then None else Some(xs[0])
  }

  lemma FirstOfJoin<T>(a: seq<T>, b: seq<T>)
    ensures FirstOf(a + b) == OrElse(FirstOf(a), FirstOf(b))
  {
  }

  lemma {:induction false} EqualityIsFirst(t: Tree)
    ensures FindEquality(t) == FirstOf(Equalities(t))
    decreases t, 1
  {
    if t.Op? && !JoinEquality(t) {
      AmongIsFirst(t.childs);
    }
  }

  lemma {:induction false} AmongIsFirst(ts: seq<Tree>)
    ensures FindAmong(ts) == FirstOf(EqualitiesAmong(ts))
    decreases ts, 0
  {
    if ts != [] {
      EqualityIsFirst(ts[0]);
      AmongIsFirst(ts[1..]);
    }
  }

  /** The condition found is the first equality of the plan, those of the joins before the selection's. */
  lemma {:induction false} FindIsFirst(p: Plan)
    ensures Find(p) == FirstOf(PlanEqualities(p))
  {
    match p
    case Relation(_) =>
    case Alias(_, _) =>
    case Cross(l, r) =>
      FindIsFirst(l);
      FindIsFirst(r);
    case Theta(l, r, on) =>
      FindIsFirst(l);
      FindIsFirst(r);
      EqualityIsFirst(on);
    case Select(src, cond) =>
      FindIsFirst(src);
      EqualityIsFirst(cond);
    case Project(_, src) =>
      FindIsFirst(src);
  }

  /** The joins of a FROM clause from the outermost in, each with the table on its right and its condition. */
  ghost function Spine(p: Plan): seq<(Plan, Option<Tree>)> {
    match p
    case Cross(l, r) => [(r, None)] + Spine(l)
    case Theta(l, r, on) => [(r, Some(on))] + Spine(l)
    case _ => [(p, None)]
  }

  /** Converting gives the outermost join that has no condition this one, and changes nothing else. */
  lemma {:induction false} ConvertsOutermost(f: Plan, c: Tree) returns (k: nat)
    requires Joins(f) && Crosses(f) > 0
    ensures k < |Spine(f)| - 1 && Spine(f)[k].1 == None && forall i | 0 <= i < k :: Spine(f)[i].1.Some?
    ensures Spine(Convert(f, c)) == Spine(f)[k := (Spine(f)[k].0, Some(c))]
  {
    if f.Cross? {
      k := 0;
      assert |Spine(f.l)| > 0;
    } else {
      var i := ConvertsOutermost(f.l, c);
      k := i + 1;
    }
  }
}
