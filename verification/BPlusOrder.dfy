/** The order inside the tree, and what the searches therefore find. */
module BPlusOrder {
  import opened Wrappers
  import opened BPlusTree

  predicate Within(k: Key, lo: Option<Key>, hi: Option<Key>) {
    (lo.Some? ==> lo.value <= k) && (hi.Some? ==> k <= hi.value)
  }

  ghost predicate NonDecreasing(ks: seq<Key>) {
    forall i, j | 0 <= i < j < |ks| :: ks[i] <= ks[j]
  }

  function Low(ks: seq<Key>, lo: Option<Key>, i: nat): Option<Key>
    requires i <= |ks|
  {
    if i == 0 then lo else Some(ks[i - 1])
  }

  function High(ks: seq<Key>, hi: Option<Key>, i: nat): Option<Key>
    requires i <= |ks|
  {
    if i == |ks| then hi else Some(ks[i])
  }

  /** Keys in order; a separator is at least every key to its left and at most every key to its right. */
  ghost predicate Ordered<N>(t: Tree<N>, lo: Option<Key>, hi: Option<Key>)
    decreases t
  {
    match t
    case Leaf(_, ks, vs) => |ks| == |vs| && InRange(ks, lo, hi)
    case Inner(_, ks, kids) =>
      && |kids| == |ks| + 1 && InRange(ks, lo, hi)
      && forall i | 0 <= i < |kids| :: Ordered(kids[i], Low(ks, lo, i), High(ks, hi, i))
  }

  ghost predicate InRange(ks: seq<Key>, lo: Option<Key>, hi: Option<Key>) {
    NonDecreasing(ks) && forall i | 0 <= i < |ks| :: Within(ks[i], lo, hi)
  }

  ghost predicate OrderedKids(ks: seq<Key>, kids: seq<VTree>, lo: Option<Key>, hi: Option<Key>) {
    && |kids| == |ks| + 1 && InRange(ks, lo, hi)
    && forall i | 0 <= i < |kids| :: Ordered(kids[i], Low(ks, lo, i), High(ks, hi, i))
  }

  ghost predicate OrderedGrown(g: Grown, lo: Option<Key>, hi: Option<Key>) {
    match g
    case One(t) => Ordered(t, lo, hi)
    case Two(l, s, r) => Within(s, lo, hi) && Ordered(l, lo, Some(s)) && Ordered(r, Some(s), hi)
  }

  lemma SplitLeafOrdered(ks: seq<Key>, vs: seq<int>, m: nat, lo: Option<Key>, hi: Option<Key>)
    requires |ks| == |vs| && m >= 2 && InRange(ks, lo, hi)
    ensures OrderedGrown(SplitLeaf(ks, vs, m), lo, hi)
  {
  }

  lemma LeftOrdered(ks: seq<Key>, kids: seq<VTree>, mid: nat, lo: Option<Key>, hi: Option<Key>)
    requires OrderedKids(ks, kids, lo, hi) && mid < |ks|
    ensures OrderedKids(ks[..mid], kids[..mid + 1], lo, Some(ks[mid]))
  {
    var l := kids[..mid + 1];
    forall i | 0 <= i < |l| ensures Ordered(l[i], Low(ks[..mid], lo, i), High(ks[..mid], Some(ks[mid]), i)) {
      assert Ordered(kids[i], Low(ks, lo, i), High(ks, hi, i));
    }
  }

  lemma RightOrdered(ks: seq<Key>, kids: seq<VTree>, mid: nat, lo: Option<Key>, hi: Option<Key>)
    requires OrderedKids(ks, kids, lo, hi) && mid < |ks|
    ensures OrderedKids(ks[mid + 1..], kids[mid + 1..], Some(ks[mid]), hi)
  {
    var r := kids[mid + 1..];
    forall i | 0 <= i < |r| ensures Ordered(r[i], Low(ks[mid + 1..], Some(ks[mid]), i), High(ks[mid + 1..], hi, i)) {
      assert Ordered(kids[mid + 1 + i], Low(ks, lo, mid + 1 + i), High(ks, hi, mid + 1 + i));
    }
  }

  lemma SplitInnerOrdered(ks: seq<Key>, kids: seq<VTree>, m: nat, lo: Option<Key>, hi: Option<Key>)
    requires m >= 2 && OrderedKids(ks, kids, lo, hi)
    ensures OrderedGrown(SplitInner(ks, kids, m), lo, hi)
  {
    if |ks| > m - 1 {
      LeftOrdered(ks, kids, |ks| / 2, lo, hi);
      RightOrdered(ks, kids, |ks| / 2, lo, hi);
    }
  }

  lemma GraftedKids(ks: seq<Key>, kids: seq<VTree>, c: nat, l: VTree, s: Key, r: VTree, lo: Option<Key>, hi: Option<Key>)
    requires OrderedKids(ks, kids, lo, hi) && c < |kids|
    requires OrderedGrown(Two(l, s, r), Low(ks, lo, c), High(ks, hi, c))
    ensures OrderedKids(ks[..c] + [s] + ks[c..], kids[..c] + [l, r] + kids[c + 1..], lo, hi)
  {
    hide Ordered;
    var ks', kids' := ks[..c] + [s] + ks[c..], kids[..c] + [l, r] + kids[c + 1..];
    assert InRange(ks', lo, hi);
    forall i | 0 <= i < |kids'| ensures Ordered(kids'[i], Low(ks', lo, i), High(ks', hi, i)) {
      if i < c {
        assert Ordered(kids[i], Low(ks, lo, i), High(ks, hi, i));
      } else if i > c + 1 {
        assert Ordered(kids[i - 1], Low(ks, lo, i - 1), High(ks, hi, i - 1));
      }
    }
  }

  lemma GraftOrdered(ks: seq<Key>, kids: seq<VTree>, c: nat, g: Grown, m: nat, lo: Option<Key>, hi: Option<Key>)
    requires m >= 2 && OrderedKids(ks, kids, lo, hi) && c < |kids|
    requires OrderedGrown(g, Low(ks, lo, c), High(ks, hi, c))
    ensures OrderedGrown(Graft(ks, kids, c, g, m), lo, hi)
  {
    if g.Two? {
      GraftedKids(ks, kids, c, g.l, g.sep, g.r, lo, hi);
      SplitInnerOrdered(ks[..c] + [g.sep] + ks[c..], kids[..c] + [g.l, g.r] + kids[c + 1..], m, lo, hi);
    }
  }

  lemma {:induction false} GrowOrdered(t: VTree, k: Key, v: int, m: nat, lo: Option<Key>, hi: Option<Key>)
    requires m >= 2 && Ordered(t, lo, hi) && Within(k, lo, hi)
    ensures OrderedGrown(Grow(t, k, v, m), lo, hi)
    decreases t
  {
    match t
    case Leaf(_, ks, vs) =>
      var i := LowerIndex(ks, k);
      SplitLeafOrdered(ks[..i] + [k] + ks[i..], vs[..i] + [v] + vs[i..], m, lo, hi);
    case Inner(_, ks, kids) =>
      var c := ChildIndex(ks, k);
      GrowOrdered(kids[c], k, v, m, Low(ks, lo, c), High(ks, hi, c));
      GraftOrdered(ks, kids, c, Grow(kids[c], k, v, m), m, lo, hi);
  }

  lemma InsertOrdered(t: VTree, k: Key, v: int, m: nat)
    requires m >= 2 && Ordered(t, None, None)
    ensures Ordered(Insert(t, k, v, m), None, None)
  {
    GrowOrdered(t, k, v, m, None, None);
  }

  // ---- the entries of an ordered tree are sorted ----

  ghost predicate SortedIn(es: seq<Entry>, lo: Option<Key>, hi: Option<Key>) {
    && (forall i | 0 <= i < |es| :: Within(es[i].0, lo, hi))
    && (forall i, j | 0 <= i < j < |es| :: es[i].0 <= es[j].0)
  }

  lemma {:induction false} OrderedFlat<N>(t: Tree<N>, lo: Option<Key>, hi: Option<Key>)
    requires Ordered(t, lo, hi)
    ensures SortedIn(Flat(t), lo, hi)
    decreases t
  {
    match t
    case Leaf(_, ks, vs) =>
    case Inner(_, ks, kids) =>
      assert kids[0..] == kids;
      OrderedFlatFrom(t, lo, hi, 0);
  }

  lemma {:induction false} OrderedFlatFrom<N>(t: Tree<N>, lo: Option<Key>, hi: Option<Key>, i: nat)
    requires t.Inner? && Ordered(t, lo, hi) && i < |t.kids|
    ensures SortedIn(FlatAll(t.kids[i..]), Low(t.keys, lo, i), hi)
    decreases t, |t.kids| - i
  {
    var ks, kids := t.keys, t.kids;
    OrderedFlat(kids[i], Low(ks, lo, i), High(ks, hi, i));
    assert kids[i..][1..] == kids[i + 1..];
    if i + 1 < |kids| {
      OrderedFlatFrom(t, lo, hi, i + 1);
    }
  }

  // ---- exactness of the descent ----

  /** The leaf `_find_leaf` reaches, as an index into the leaves. */
  function FoundLeaf<N>(t: Tree<N>, k: Key): nat {
    match t
    case Leaf(_, _, _) => 0
    case Inner(_, ks, kids) =>
      var c := ChildIndex(ks, k);
      if c < |kids| then |LeavesAll(kids[..c])| + FoundLeaf(kids[c], k) else 0
  }

  /** The leaf from which `search` starts to walk. */
  function FirstLeaf<N>(t: Tree<N>, k: Key): nat {
    match t
    case Leaf(_, _, _) => 0
    case Inner(_, ks, kids) =>
      var c := LowerIndex(ks, k);
      if c < |kids| then |LeavesAll(kids[..c])| + FirstLeaf(kids[c], k) else 0
  }

  lemma {:induction false} LeavesFlat<N>(t: Tree<N>)
    ensures FlatAll(Leaves(t)) == Flat(t)
    decreases t, 0
  {
    match t
    case Leaf(_, _, _) =>
      assert [t][1..] == [];
    case Inner(_, _, kids) =>
      LeavesAllFlat(kids);
  }

  lemma {:induction false} LeavesAllFlat<N>(ts: seq<Tree<N>>)
    ensures FlatAll(LeavesAll(ts)) == FlatAll(ts)
    decreases ts
  {
    if ts != [] {
      LeavesFlat(ts[0]);
      LeavesAllFlat(ts[1..]);
      FlatAllAppend(Leaves(ts[0]), LeavesAll(ts[1..]));
    }
  }

  lemma {:induction false} LeavesAllAppend<N>(a: seq<Tree<N>>, b: seq<Tree<N>>)
    ensures LeavesAll(a + b) == LeavesAll(a) + LeavesAll(b)
  {
    if a == [] {
      assert a + b == b;
    } else {
      assert (a + b)[1..] == a[1..] + b;
      LeavesAllAppend(a[1..], b);
    }
  }

  lemma LeavesAround<N>(kids: seq<Tree<N>>, c: nat)
    requires c < |kids|
    ensures LeavesAll(kids) == LeavesAll(kids[..c]) + Leaves(kids[c]) + LeavesAll(kids[c + 1..])
  {
    hide Leaves;
    var tail := kids[c..];
    assert kids == kids[..c] + tail && tail[0] == kids[c] && tail[1..] == kids[c + 1..];
    LeavesAllAppend(kids[..c], tail);
    assert LeavesAll(tail) == Leaves(kids[c]) + LeavesAll(kids[c + 1..]);
    assert LeavesAll(kids[..c]) + (Leaves(kids[c]) + LeavesAll(kids[c + 1..])) == LeavesAll(kids[..c]) + Leaves(kids[c]) + LeavesAll(kids[c + 1..]);
  }

  lemma {:induction false} FlatAllMember<N>(ts: seq<Tree<N>>, e: Entry) returns (j: nat)
    requires e in FlatAll(ts)
    ensures j < |ts| && e in Flat(ts[j])
  {
    if e in Flat(ts[0]) {
      j := 0;
    } else {
      var i := FlatAllMember(ts[1..], e);
      j := i + 1;
    }
  }

  /** Entries left of child `c` do not exceed the separator before it; those right of it are not below
      the separator after it. */
  lemma AroundChild<N>(t: Tree<N>, lo: Option<Key>, hi: Option<Key>, c: nat)
    requires t.Inner? && Ordered(t, lo, hi) && c < |t.kids|
    ensures forall e | e in FlatAll(t.kids[..c]) :: c > 0 && e.0 <= t.keys[c - 1]
    ensures forall e | e in FlatAll(t.kids[c + 1..]) :: c < |t.keys| && t.keys[c] <= e.0
  {
    hide Ordered, Flat, FlatAll, Leaves;
    KidsOfKeys(t, lo, hi);
    var left, right := t.kids[..c], t.kids[c + 1..];
    forall e | e in FlatAll(left) ensures c > 0 && e.0 <= t.keys[c - 1] {
      var j := FlatAllMember(left, e);
      assert left[j] == t.kids[j];
      KidBounds(t, lo, hi, j, e);
    }
    forall e | e in FlatAll(right) ensures c < |t.keys| && t.keys[c] <= e.0 {
      var j := FlatAllMember(right, e);
      assert right[j] == t.kids[c + 1 + j];
      KidBounds(t, lo, hi, c + 1 + j, e);
      assert c < c + 1 + j <= |t.keys|;
    }
  }

  lemma KidsOfKeys<N>(t: Tree<N>, lo: Option<Key>, hi: Option<Key>)
    requires t.Inner? && Ordered(t, lo, hi)
    ensures |t.kids| == |t.keys| + 1
  {
  }

  lemma KidBounds<N>(t: Tree<N>, lo: Option<Key>, hi: Option<Key>, j: nat, e: Entry)
    requires t.Inner? && Ordered(t, lo, hi) && j < |t.kids| && e in Flat(t.kids[j])
    ensures forall i | 0 <= i < j :: t.keys[i] <= e.0
    ensures forall i | j <= i < |t.keys| :: e.0 <= t.keys[i]
  {
    OrderedFlat(t.kids[j], Low(t.keys, lo, j), High(t.keys, hi, j));
    assert Within(e.0, Low(t.keys, lo, j), High(t.keys, hi, j));
  }

  /** Where the leaves split around leaf `f` of child `c`. */
  lemma LeavesAt<N>(kids: seq<Tree<N>>, c: nat, f: nat)
    requires c < |kids| && f < |Leaves(kids[c])|
    ensures var ls, n := LeavesAll(kids), |LeavesAll(kids[..c])| + f;
            n < |ls| && ls[n] == Leaves(kids[c])[f]
            && FlatAll(ls[..n]) == FlatAll(kids[..c]) + FlatAll(Leaves(kids[c])[..f])
            && FlatAll(ls[n + 1..]) == FlatAll(Leaves(kids[c])[f + 1..]) + FlatAll(kids[c + 1..])
  {
    var before, here, after := LeavesAll(kids[..c]), Leaves(kids[c]), LeavesAll(kids[c + 1..]);
    LeavesAround(kids, c);
    Around(before, here, after, f);
    FlatAllAppend(before, here[..f]);
    FlatAllAppend(here[f + 1..], after);
    LeavesAllFlat(kids[..c]);
    LeavesAllFlat(kids[c + 1..]);
  }

  lemma Around<T>(a: seq<T>, b: seq<T>, c: seq<T>, f: nat)
    requires f < |b|
    ensures var s := a + b + c;
            s[|a| + f] == b[f] && s[..|a| + f] == a + b[..f] && s[|a| + f + 1..] == b[f + 1..] + c
  {
  }

  lemma FoundInChild<N>(t: Tree<N>, k: Key)
    requires t.Inner? && |t.kids| == |t.keys| + 1
    requires var kid := t.kids[ChildIndex(t.keys, k)]; FoundLeaf(kid, k) < |Leaves(kid)|
    ensures var kid := t.kids[ChildIndex(t.keys, k)];
            FoundLeaf(t, k) < |Leaves(t)| && Leaves(t)[FoundLeaf(t, k)] == Leaves(kid)[FoundLeaf(kid, k)]
  {
    hide LeavesAll, Flat, FlatAll;
    var c := ChildIndex(t.keys, k);
    FoundThere(t, k);
    LeavesAt(t.kids, c, FoundLeaf(t.kids[c], k));
  }

  ghost predicate AtMost(es: seq<Entry>, k: Key) {
    forall e | e in es :: e.0 <= k
  }

  ghost predicate Above(es: seq<Entry>, k: Key) {
    forall e | e in es :: k < e.0
  }

  /** Before the leaf found for `k` no key exceeds `k`, and after it every key does. */
  lemma {:induction false} FoundLeafSplits<N>(t: Tree<N>, lo: Option<Key>, hi: Option<Key>, k: Key)
    requires Ordered(t, lo, hi)
    ensures FoundLeaf(t, k) < |Leaves(t)|
    ensures AtMost(FlatAll(Leaves(t)[..FoundLeaf(t, k)]), k) && Above(FlatAll(Leaves(t)[FoundLeaf(t, k) + 1..]), k)
    decreases t
  {
    hide AtMost, Above, Ordered, Flat, FlatAll, LeavesAll;
    match t
    case Leaf(_, _, _) =>
      NoneBeside(k);
      OneLeaf(t);
    case Inner(_, ks, kids) =>
      var c := ChildIndex(ks, k);
      OrderedKid(t, lo, hi, c);
      FoundLeafSplits(kids[c], Low(ks, lo, c), High(ks, hi, c), k);
      OutsideChild(t, lo, hi, k);
      SplitsAround(kids, c, FoundLeaf(kids[c], k), k);
      FoundThere(t, k);
  }

  lemma SplitsAround<N>(kids: seq<Tree<N>>, c: nat, f: nat, k: Key)
    requires c < |kids| && f < |Leaves(kids[c])|
    requires AtMost(FlatAll(kids[..c]), k) && Above(FlatAll(kids[c + 1..]), k)
    requires AtMost(FlatAll(Leaves(kids[c])[..f]), k) && Above(FlatAll(Leaves(kids[c])[f + 1..]), k)
    ensures var ls, n := LeavesAll(kids), |LeavesAll(kids[..c])| + f;
            n < |ls| && AtMost(FlatAll(ls[..n]), k) && Above(FlatAll(ls[n + 1..]), k)
  {
    LeavesAt(kids, c, f);
  }

  lemma NoneBeside(k: Key)
    ensures AtMost([], k) && Above([], k)
  {
  }

  lemma OneLeaf<N>(t: Tree<N>)
    requires t.Leaf?
    ensures Leaves(t) == [t] && FlatAll(Leaves(t)[..0]) == [] && FlatAll(Leaves(t)[1..]) == []
  {
  }

  lemma OrderedKid<N>(t: Tree<N>, lo: Option<Key>, hi: Option<Key>, c: nat)
    requires t.Inner? && Ordered(t, lo, hi) && c <= |t.keys|
    ensures |t.kids| == |t.keys| + 1 && Ordered(t.kids[c], Low(t.keys, lo, c), High(t.keys, hi, c))
  {
  }

  lemma FoundThere<N>(t: Tree<N>, k: Key)
    requires t.Inner? && |t.kids| == |t.keys| + 1
    ensures var c := ChildIndex(t.keys, k);
            Leaves(t) == LeavesAll(t.kids) && FoundLeaf(t, k) == |LeavesAll(t.kids[..c])| + FoundLeaf(t.kids[c], k)
  {
    hide LeavesAll;
  }

  lemma FirstThere<N>(t: Tree<N>, k: Key)
    requires t.Inner? && |t.kids| == |t.keys| + 1
    ensures var c := LowerIndex(t.keys, k);
            Leaves(t) == LeavesAll(t.kids) && FirstLeaf(t, k) == |LeavesAll(t.kids[..c])| + FirstLeaf(t.kids[c], k)
  {
    hide LeavesAll;
  }

  lemma OutsideChild<N>(t: Tree<N>, lo: Option<Key>, hi: Option<Key>, k: Key)
    requires t.Inner? && Ordered(t, lo, hi)
    ensures AtMost(FlatAll(t.kids[..ChildIndex(t.keys, k)]), k) && Above(FlatAll(t.kids[ChildIndex(t.keys, k) + 1..]), k)
  {
    AroundChild(t, lo, hi, ChildIndex(t.keys, k));
  }

  /** Before the leaf where a search starts every key is below `k`. */
  lemma {:induction false} FirstLeafSplits<N>(t: Tree<N>, lo: Option<Key>, hi: Option<Key>, k: Key)
    requires Ordered(t, lo, hi)
    ensures var ls, f := Leaves(t), FirstLeaf(t, k);
            f < |ls| && (forall e | e in FlatAll(ls[..f]) :: e.0 < k)
    decreases t
  {
    hide Ordered, Flat, FlatAll, LeavesAll;
    match t
    case Leaf(_, _, _) =>
      OneLeaf(t);
    case Inner(_, ks, kids) =>
      var c := LowerIndex(ks, k);
      OrderedKid(t, lo, hi, c);
      FirstLeafSplits(kids[c], Low(ks, lo, c), High(ks, hi, c), k);
      FirstThere(t, k);
      LeavesAt(kids, c, FirstLeaf(kids[c], k));
      AroundChild(t, lo, hi, c);
  }
}
