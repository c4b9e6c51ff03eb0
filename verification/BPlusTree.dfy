/** The B+ tree as a value: what insertion, deletion and the searches do to it and find in it. */
module BPlusTree {
  import opened Wrappers

  // The index compares keys and does nothing else with them.
  type Key = int

  type Entry = (Key, int)

  /** A tree whose nodes carry names of type `N`; the value tree proper has none. */
  datatype Tree<N> =
    | Leaf(id: N, keys: seq<Key>, vals: seq<int>)
    | Inner(id: N, keys: seq<Key>, kids: seq<Tree<N>>)

  type VTree = Tree<()>

  const EMPTY: VTree := Leaf((), [], [])

  // ---- what a tree holds ----

  function Zip(ks: seq<Key>, vs: seq<int>): (es: seq<Entry>)
    ensures |es| == (if |ks| <= |vs| then |ks| else |vs|)
    ensures forall i | 0 <= i < |es| :: es[i] == (ks[i], vs[i])
  {
    if ks == [] || vs == [] then [] else [(ks[0], vs[0])] + Zip(ks[1..], vs[1..])
  }

  /** The entries of a tree in leaf order. */
  function Flat<N>(t: Tree<N>): seq<Entry> {
    match t
    case Leaf(_, ks, vs) => Zip(ks, vs)
    case Inner(_, _, kids) => FlatAll(kids)
  }

  function FlatAll<N>(ts: seq<Tree<N>>): seq<Entry> {
    if ts == [] then [] else Flat(ts[0]) + FlatAll(ts[1..])
  }

  /** The leaves, left to right. */
  function Leaves<N>(t: Tree<N>): seq<Tree<N>> {
    match t
    case Leaf(_, _, _) => [t]
    case Inner(_, _, kids) => LeavesAll(kids)
  }

  function LeavesAll<N>(ts: seq<Tree<N>>): seq<Tree<N>> {
    if ts == [] then [] else Leaves(ts[0]) + LeavesAll(ts[1..])
  }

  // ---- descending ----

  /** `_find_leaf`: the first separator above the key. */
  function ChildIndex(ks: seq<Key>, k: Key): (i: nat)
    ensures i <= |ks|
    ensures forall j | 0 <= j < i :: ks[j] <= k
    ensures i < |ks| ==> k < ks[i]
  {
    if ks == [] || k < ks[0] then 0 else 1 + ChildIndex(ks[1..], k)
  }

  /** The descent of `search`, and the position of an insertion: the first key not below. */
  function LowerIndex(ks: seq<Key>, k: Key): (i: nat)
    ensures i <= |ks|
    ensures forall j | 0 <= j < i :: ks[j] < k
    ensures i < |ks| ==> k <= ks[i]
  {
    if ks == [] || k <= ks[0] then 0 else 1 + LowerIndex(ks[1..], k)
  }

  // ---- insertion ----

  /** What an insertion hands to the level above: one tree, or two around a new separator. */
  datatype Grown = One(t: VTree) | Two(l: VTree, sep: Key, r: VTree)

  function Insert(t: VTree, k: Key, v: int, m: nat): VTree
    requires m >= 2
  {
    match Grow(t, k, v, m)
    case One(t') => t'
    case Two(l, s, r) => Inner((), [s], [l, r])
  }

  function Grow(t: VTree, k: Key, v: int, m: nat): Grown
    requires m >= 2
    decreases t
  {
    match t
    case Leaf(_, ks, vs) =>
      if |ks| != |vs| then One(t)
      else
        var i := LowerIndex(ks, k);
        SplitLeaf(ks[..i] + [k] + ks[i..], vs[..i] + [v] + vs[i..], m)
    case Inner(_, ks, kids) =>
      var i := ChildIndex(ks, k);
      if |kids| != |ks| + 1 then One(t) else Graft(ks, kids, i, Grow(kids[i], k, v, m), m)
  }

  function SplitLeaf(ks: seq<Key>, vs: seq<int>, m: nat): Grown
    requires |ks| == |vs| && m >= 2
  {
    if |ks| <= m - 1 then One(Leaf((), ks, vs))
    else
      var mid := |ks| / 2;
      Two(Leaf((), ks[..mid], vs[..mid]), ks[mid], Leaf((), ks[mid..], vs[mid..]))
  }

  /** Child `i` has become `g`. */
  function Graft(ks: seq<Key>, kids: seq<VTree>, i: nat, g: Grown, m: nat): Grown
    requires |kids| == |ks| + 1 && i < |kids| && m >= 2
  {
    match g
    case One(t) => One(Inner((), ks, kids[i := t]))
    case Two(l, s, r) => SplitInner(ks[..i] + [s] + ks[i..], kids[..i] + [l, r] + kids[i + 1..], m)
  }

  function SplitInner(ks: seq<Key>, kids: seq<VTree>, m: nat): Grown
    requires |kids| == |ks| + 1 && m >= 2
  {
    if |ks| <= m - 1 then One(Inner((), ks, kids))
    else
      var mid := |ks| / 2;
      Two(Inner((), ks[..mid], kids[..mid + 1]), ks[mid], Inner((), ks[mid + 1..], kids[mid + 1..]))
  }

  // ---- deletion: the first matching entry of the leaf the descent reaches, and no rebalancing ----

  function Delete<N>(t: Tree<N>, k: Key, v: int): Tree<N>
    decreases t
  {
    match t
    case Leaf(id, ks, vs) =>
      var i := Position(Zip(ks, vs), (k, v));
      if i < |Zip(ks, vs)| then Leaf(id, ks[..i] + ks[i + 1..], vs[..i] + vs[i + 1..]) else t
    case Inner(id, ks, kids) =>
      var i := ChildIndex(ks, k);
      if |kids| != |ks| + 1 then t else Inner(id, ks, kids[i := Delete(kids[i], k, v)])
  }

  function Position(es: seq<Entry>, e: Entry): (i: nat)
    ensures i <= |es| && e !in es[..i]
    ensures i < |es| ==> es[i] == e
  {
    if es == [] || es[0] == e then 0 else 1 + Position(es[1..], e)
  }

  // ---- the shape ----

  /** Every leaf `d` levels down, one more child than keys, at most `m - 1` keys in a node. */
  ghost predicate Shape<N>(t: Tree<N>, m: nat, d: nat)
    decreases t
  {
    match t
    case Leaf(_, ks, vs) => d == 0 && |ks| == |vs| && |ks| < m
    case Inner(_, ks, kids) => d > 0 && |kids| == |ks| + 1 && |ks| < m && forall i | 0 <= i < |kids| :: Shape(kids[i], m, d - 1)
  }

  function Parts(g: Grown): seq<VTree> {
    if g.One? then [g.t] else [g.l, g.r]
  }

  ghost predicate ShapeAll(ts: seq<VTree>, m: nat, d: nat) {
    forall i | 0 <= i < |ts| :: Shape(ts[i], m, d)
  }

  lemma {:induction false} GrowShape(t: VTree, k: Key, v: int, m: nat, d: nat)
    requires m >= 2 && Shape(t, m, d)
    ensures ShapeAll(Parts(Grow(t, k, v, m)), m, d)
    decreases t
  {
    match t
    case Leaf(_, ks, vs) =>
    case Inner(_, ks, kids) =>
      var i := ChildIndex(ks, k);
      GrowShape(kids[i], k, v, m, d - 1);
      GraftShape(ks, kids, i, Grow(kids[i], k, v, m), m, d);
  }

  lemma GraftShape(ks: seq<Key>, kids: seq<VTree>, i: nat, g: Grown, m: nat, d: nat)
    requires m >= 2 && |kids| == |ks| + 1 && |ks| < m && i < |kids| && d > 0
    requires ShapeAll(kids, m, d - 1) && ShapeAll(Parts(g), m, d - 1)
    ensures ShapeAll(Parts(Graft(ks, kids, i, g, m)), m, d)
  {
    match g
    case One(t) =>
      assert t == Parts(g)[0];
    case Two(l, s, r) =>
      assert l == Parts(g)[0] && r == Parts(g)[1];
      var all := kids[..i] + [l, r] + kids[i + 1..];
      assert ShapeAll(all, m, d - 1);
      var mid := (|ks| + 1) / 2;
      assert ShapeAll(all[..mid + 1], m, d - 1) && ShapeAll(all[mid + 1..], m, d - 1);
  }

  // ---- the entries ----

  lemma {:induction false} FlatAllAppend<N>(a: seq<Tree<N>>, b: seq<Tree<N>>)
    ensures FlatAll(a + b) == FlatAll(a) + FlatAll(b)
  {
    if a == [] {
      assert a + b == b;
    } else {
      assert (a + b)[1..] == a[1..] + b;
      FlatAllAppend(a[1..], b);
    }
  }

  lemma FlatAround<N>(kids: seq<Tree<N>>, i: nat, mid: seq<Tree<N>>)
    requires i < |kids|
    ensures FlatAll(kids) == FlatAll(kids[..i]) + Flat(kids[i]) + FlatAll(kids[i + 1..])
    ensures FlatAll(kids[..i] + mid + kids[i + 1..]) == FlatAll(kids[..i]) + FlatAll(mid) + FlatAll(kids[i + 1..])
  {
    assert kids == kids[..i] + kids[i..];
    FlatAllAppend(kids[..i], kids[i..]);
    assert kids[i..][1..] == kids[i + 1..];
    FlatAllAppend(kids[..i] + mid, kids[i + 1..]);
    FlatAllAppend(kids[..i], mid);
  }

  lemma SplitKeepsFlat(ks: seq<Key>, kids: seq<VTree>, m: nat)
    requires |kids| == |ks| + 1 && m >= 2
    ensures FlatAll(Parts(SplitInner(ks, kids, m))) == FlatAll(kids)
  {
    var mid := |ks| / 2;
    if |ks| > m - 1 {
      assert kids == kids[..mid + 1] + kids[mid + 1..];
      FlatAllAppend(kids[..mid + 1], kids[mid + 1..]);
      FlatAllTwo(Inner((), ks[..mid], kids[..mid + 1]), Inner((), ks[mid + 1..], kids[mid + 1..]));
    }
  }

  lemma ZipInsert(ks: seq<Key>, vs: seq<int>, i: nat, k: Key, v: int)
    requires |ks| == |vs| && i <= |ks|
    ensures Zip(ks[..i] + [k] + ks[i..], vs[..i] + [v] + vs[i..]) == Zip(ks, vs)[..i] + [(k, v)] + Zip(ks, vs)[i..]
  {
  }

  lemma Splice<T>(a: seq<T>, b: seq<T>, c: seq<T>, j: nat, x: T)
    requires j <= |b|
    ensures a + (b[..j] + [x] + b[j..]) + c == (a + b + c)[..|a| + j] + [x] + (a + b + c)[|a| + j..]
  {
  }

  lemma GraftAmid(kids: seq<VTree>, c: nat, es: seq<Entry>, j: nat, e: Entry)
    requires c < |kids| && j <= |Flat(kids[c])|
    requires es == Flat(kids[c])[..j] + [e] + Flat(kids[c])[j..]
    ensures var i, all := |FlatAll(kids[..c])| + j, FlatAll(kids);
            i <= |all| && FlatAll(kids[..c]) + es + FlatAll(kids[c + 1..]) == all[..i] + [e] + all[i..]
  {
    FlatAround(kids, c, []);
    Splice(FlatAll(kids[..c]), Flat(kids[c]), FlatAll(kids[c + 1..]), j, e);
  }

  /** Insertion puts in one entry and keeps the others as they are. */
  lemma {:induction false} GrowFlat(t: VTree, k: Key, v: int, m: nat, d: nat) returns (i: nat)
    requires m >= 2 && Shape(t, m, d)
    ensures i <= |Flat(t)| && FlatAll(Parts(Grow(t, k, v, m))) == Flat(t)[..i] + [(k, v)] + Flat(t)[i..]
    decreases t
  {
    match t
    case Leaf(_, ks, vs) =>
      i := LowerIndex(ks, k);
      SplitLeafFlat(ks[..i] + [k] + ks[i..], vs[..i] + [v] + vs[i..], m);
      ZipInsert(ks, vs, i, k, v);
    case Inner(_, ks, kids) =>
      var c := ChildIndex(ks, k);
      var g := Grow(kids[c], k, v, m);
      var j := GrowFlat(kids[c], k, v, m, d - 1);
      i := |FlatAll(kids[..c])| + j;
      GraftFlat(ks, kids, c, g, m);
      GraftAmid(kids, c, FlatAll(Parts(g)), j, (k, v));
  }

  lemma SplitLeafFlat(ks: seq<Key>, vs: seq<int>, m: nat)
    requires |ks| == |vs| && m >= 2
    ensures FlatAll(Parts(SplitLeaf(ks, vs, m))) == Zip(ks, vs)
  {
    var mid := |ks| / 2;
    assert Zip(ks, vs) == Zip(ks[..mid], vs[..mid]) + Zip(ks[mid..], vs[mid..]);
    FlatAllTwo(Leaf((), ks[..mid], vs[..mid]), Leaf((), ks[mid..], vs[mid..]));
  }

  lemma FlatAllTwo<N>(l: Tree<N>, r: Tree<N>)
    ensures FlatAll([l, r]) == Flat(l) + Flat(r)
  {
    assert [l, r][1..] == [r] && [r][1..] == [];
    assert FlatAll([r]) == Flat(r) + FlatAll([r][1..]);
  }

  lemma GraftFlat(ks: seq<Key>, kids: seq<VTree>, c: nat, g: Grown, m: nat)
    requires |kids| == |ks| + 1 && c < |kids| && m >= 2
    ensures FlatAll(Parts(Graft(ks, kids, c, g, m))) == FlatAll(kids[..c]) + FlatAll(Parts(g)) + FlatAll(kids[c + 1..])
  {
    FlatAround(kids, c, Parts(g));
    if g.One? {
      assert kids[c := g.t] == kids[..c] + Parts(g) + kids[c + 1..];
    } else {
      SplitKeepsFlat(ks[..c] + [g.sep] + ks[c..], kids[..c] + Parts(g) + kids[c + 1..], m);
    }
  }
}
