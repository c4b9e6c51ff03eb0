/** When the searches of the index find everything: trees built by insertion alone, duplicates
    included, and trees whose keys are distinct, deletions included. */
module BPlusExact {
  import opened Wrappers
  import opened BPlusTree
  import opened BPlusOrder

  // ---- trees built by insertion: a separator is the least key to its right ----

  ghost predicate StartsAt(es: seq<Entry>, k: Key) {
    es != [] && es[0].0 == k
  }

  ghost predicate Tight<N>(t: Tree<N>)
    decreases t
  {
    t.Inner? ==>
      && |t.kids| == |t.keys| + 1
      && forall i | 0 <= i < |t.kids| ::
           Tight(t.kids[i]) && Flat(t.kids[i]) != [] && (i > 0 ==> StartsAt(Flat(t.kids[i]), t.keys[i - 1]))
  }

  ghost predicate TightKids(ks: seq<Key>, kids: seq<VTree>) {
    && |kids| == |ks| + 1
    && forall i | 0 <= i < |kids| ::
         Tight(kids[i]) && Flat(kids[i]) != [] && (i > 0 ==> StartsAt(Flat(kids[i]), ks[i - 1]))
  }

  ghost predicate TightGrown(g: Grown) {
    match g
    case One(t) => Tight(t) && Flat(t) != []
    case Two(l, s, r) => Tight(l) && Tight(r) && Flat(l) != [] && StartsAt(Flat(r), s)
  }

  lemma SliceTight(ks: seq<Key>, kids: seq<VTree>, a: nat, b: nat)
    requires TightKids(ks, kids) && a <= b <= |ks|
    ensures TightKids(ks[a..b], kids[a..b + 1])
    ensures Flat(Inner((), ks[a..b], kids[a..b + 1])) != []
    ensures a > 0 ==> StartsAt(Flat(Inner((), ks[a..b], kids[a..b + 1])), ks[a - 1])
  {
    var part := kids[a..b + 1];
    assert FlatAll(part) == Flat(part[0]) + FlatAll(part[1..]);
    forall i | 0 <= i < |part|
      ensures Tight(part[i]) && Flat(part[i]) != [] && (i > 0 ==> StartsAt(Flat(part[i]), ks[a..b][i - 1]))
    {
      assert part[i] == kids[a + i];
    }
  }

  lemma SplitInnerTight(ks: seq<Key>, kids: seq<VTree>, m: nat)
    requires m >= 2 && TightKids(ks, kids)
    ensures TightGrown(SplitInner(ks, kids, m))
  {
    hide Flat, FlatAll;
    assert ks[0..|ks|] == ks && kids[0..|ks| + 1] == kids;
    SliceTight(ks, kids, 0, |ks|);
    if |ks| > m - 1 {
      var mid := |ks| / 2;
      assert ks[0..mid] == ks[..mid] && kids[0..mid + 1] == kids[..mid + 1];
      SliceTight(ks, kids, 0, mid);
      assert ks[mid + 1..|ks|] == ks[mid + 1..] && kids[mid + 1..|ks| + 1] == kids[mid + 1..];
      SliceTight(ks, kids, mid + 1, |ks|);
    }
  }

  lemma GraftTight(ks: seq<Key>, kids: seq<VTree>, c: nat, g: Grown, m: nat)
    requires m >= 2 && TightKids(ks, kids) && c < |kids|
    requires TightGrown(g) && (c > 0 ==> StartsAt(FlatAll(Parts(g)), ks[c - 1]))
    ensures TightGrown(Graft(ks, kids, c, g, m))
  {
    match g
    case One(t) =>
      assert [t][1..] == [];
      var kids' := kids[c := t];
      assert FlatAll(kids') == Flat(kids'[0]) + FlatAll(kids'[1..]);
      assert TightKids(ks, kids');
    case Two(l, s, r) =>
      FlatAllTwo(l, r);
      var ks', kids' := ks[..c] + [s] + ks[c..], kids[..c] + [l, r] + kids[c + 1..];
      forall i | 0 <= i < |kids'|
        ensures Tight(kids'[i]) && Flat(kids'[i]) != [] && (i > 0 ==> StartsAt(Flat(kids'[i]), ks'[i - 1]))
      {
        if i > c + 1 {
          assert kids'[i] == kids[i - 1];
        }
      }
      SplitInnerTight(ks', kids', m);
  }

  /** The first entry after an insertion. */
  lemma GrowFirst(t: VTree, k: Key, v: int, m: nat, d: nat, lo: Option<Key>, hi: Option<Key>)
    requires m >= 2 && Shape(t, m, d) && Ordered(t, lo, hi) && Within(k, lo, hi)
    requires lo.Some? && StartsAt(Flat(t), lo.value)
    ensures StartsAt(FlatAll(Parts(Grow(t, k, v, m))), lo.value)
  {
    var es := FlatAll(Parts(Grow(t, k, v, m)));
    var i := GrowFlat(t, k, v, m, d);
    GrowOrdered(t, k, v, m, lo, hi);
    GrownSorted(Grow(t, k, v, m), lo, hi);
    if i == 0 {
      assert es[1] == Flat(t)[0];
    } else {
      assert es[0] == Flat(t)[0];
    }
  }

  lemma GrownSorted(g: Grown, lo: Option<Key>, hi: Option<Key>)
    requires OrderedGrown(g, lo, hi)
    ensures SortedIn(FlatAll(Parts(g)), lo, hi)
  {
    match g
    case One(t) =>
      OrderedFlat(t, lo, hi);
      assert [t][1..] == [];
    case Two(l, s, r) =>
      OrderedFlat(l, lo, Some(s));
      OrderedFlat(r, Some(s), hi);
      FlatAllTwo(l, r);
  }

  lemma LeafTight(ks: seq<Key>, vs: seq<int>, k: Key, v: int, m: nat)
    requires m >= 2 && |ks| == |vs|
    ensures TightGrown(Grow(Leaf((), ks, vs), k, v, m))
  {
  }

  lemma {:induction false} GrowTight(t: VTree, k: Key, v: int, m: nat, d: nat, lo: Option<Key>, hi: Option<Key>)
    requires m >= 2 && Shape(t, m, d) && Ordered(t, lo, hi) && Within(k, lo, hi) && Tight(t)
    ensures TightGrown(Grow(t, k, v, m))
    decreases t
  {
    hide Flat, FlatAll, SplitInner;
    match t
    case Leaf(_, ks, vs) =>
      LeafTight(ks, vs, k, v, m);
    case Inner(_, ks, kids) =>
      var c := ChildIndex(ks, k);
      OrderedKid(t, lo, hi, c);
      GrowTight(kids[c], k, v, m, d - 1, Low(ks, lo, c), High(ks, hi, c));
      if c > 0 {
        GrowFirst(kids[c], k, v, m, d - 1, Low(ks, lo, c), High(ks, hi, c));
      }
      GraftTight(ks, kids, c, Grow(kids[c], k, v, m), m);
  }

  lemma TightChild<N>(t: Tree<N>, lo: Option<Key>, hi: Option<Key>, k: Key, e: Entry) returns (f: Entry)
    requires t.Inner? && Ordered(t, lo, hi) && Tight(t) && e in Flat(t) && e.0 == k
    ensures f in Flat(t.kids[ChildIndex(t.keys, k)]) && f.0 == k
  {
    var c := ChildIndex(t.keys, k);
    var j := FlatAllMember(t.kids, e);
    KidBounds(t, lo, hi, j, e);
    f := if j == c then e else Flat(t.kids[c])[0];
  }

  /** A key that is in the tree at all is in the leaf the descent finds. */
  lemma {:induction false} TightFinds<N>(t: Tree<N>, lo: Option<Key>, hi: Option<Key>, k: Key, e: Entry) returns (e': Entry)
    requires Ordered(t, lo, hi) && Tight(t) && e in Flat(t) && e.0 == k
    ensures FoundLeaf(t, k) < |Leaves(t)|
    ensures e' in Flat(Leaves(t)[FoundLeaf(t, k)]) && e'.0 == k
    decreases t
  {
    match t
    case Leaf(_, _, _) =>
      e' := e;
    case Inner(_, ks, kids) =>
      var c := ChildIndex(ks, k);
      var f := TightChild(t, lo, hi, k, e);
      e' := TightFinds(kids[c], Low(ks, lo, c), High(ks, hi, c), k, f);
      FoundInChild(t, k);
  }

  // ---- distinct keys: everything left of a separator is strictly below it ----

  ghost predicate Below(es: seq<Entry>, k: Key) {
    forall e | e in es :: e.0 < k
  }

  ghost predicate Increasing(ks: seq<Key>) {
    forall i, j | 0 <= i < j < |ks| :: ks[i] < ks[j]
  }

  ghost predicate Lacks(es: seq<Entry>, k: Key) {
    forall e | e in es :: e.0 != k
  }

  ghost predicate Strict<N>(t: Tree<N>)
    decreases t
  {
    match t
    case Leaf(_, ks, _) => Increasing(ks)
    case Inner(_, ks, kids) =>
      |kids| == |ks| + 1 && forall i | 0 <= i < |kids| :: Strict(kids[i]) && (i < |ks| ==> Below(Flat(kids[i]), ks[i]))
  }

  ghost predicate StrictKids(ks: seq<Key>, kids: seq<VTree>) {
    |kids| == |ks| + 1 && forall i | 0 <= i < |kids| :: Strict(kids[i]) && (i < |ks| ==> Below(Flat(kids[i]), ks[i]))
  }

  ghost predicate StrictGrown(g: Grown) {
    match g
    case One(t) => Strict(t)
    case Two(l, s, r) => Strict(l) && Strict(r) && Below(Flat(l), s)
  }

  lemma FlatOf(ks: seq<Key>, kids: seq<VTree>)
    ensures Flat(Inner((), ks, kids)) == FlatAll(kids)
  {
  }

  lemma SplitInnerStrict(ks: seq<Key>, kids: seq<VTree>, m: nat)
    requires m >= 2 && StrictKids(ks, kids) && NonDecreasing(ks)
    ensures StrictGrown(SplitInner(ks, kids, m))
  {
    hide Flat, FlatAll;
    if |ks| > m - 1 {
      var mid := |ks| / 2;
      var l, r := kids[..mid + 1], kids[mid + 1..];
      assert StrictKids(ks[..mid], l);
      assert StrictKids(ks[mid + 1..], r) by {
        assert forall i | 0 <= i < |r| :: r[i] == kids[mid + 1 + i];
      }
      FlatOf(ks[..mid], l);
      forall e | e in FlatAll(l) ensures e.0 < ks[mid] {
        var j := FlatAllMember(l, e);
        assert l[j] == kids[j] && Below(Flat(kids[j]), ks[j]);
      }
    }
  }

  lemma GraftStrict(ks: seq<Key>, kids: seq<VTree>, c: nat, g: Grown, m: nat)
    requires m >= 2 && StrictKids(ks, kids) && c < |kids| && StrictGrown(g)
    requires c < |ks| ==> Below(FlatAll(Parts(g)), ks[c])
    requires g.Two? ==> NonDecreasing(ks[..c] + [g.sep] + ks[c..])
    ensures StrictGrown(Graft(ks, kids, c, g, m))
  {
    match g
    case One(t) =>
      assert [t][1..] == [];
      assert StrictKids(ks, kids[c := t]);
    case Two(l, s, r) =>
      FlatAllTwo(l, r);
      var ks', kids' := ks[..c] + [s] + ks[c..], kids[..c] + [l, r] + kids[c + 1..];
      forall i | 0 <= i < |kids'| ensures Strict(kids'[i]) && (i < |ks'| ==> Below(Flat(kids'[i]), ks'[i])) {
        if i > c + 1 {
          assert kids'[i] == kids[i - 1];
        }
      }
      SplitInnerStrict(ks', kids', m);
  }

  /** What an insertion leaves below the separator after its child. */
  lemma GrowBelow(t: VTree, k: Key, v: int, m: nat, d: nat, sep: Key)
    requires m >= 2 && Shape(t, m, d) && Below(Flat(t), sep) && k < sep
    ensures Below(FlatAll(Parts(Grow(t, k, v, m))), sep)
  {
    hide Grow, Parts, FlatAll, Flat, Shape;
    var i := GrowFlat(t, k, v, m, d);
    var es := Flat(t);
    assert forall e | e in es[..i] + [(k, v)] + es[i..] :: e in es || e == (k, v);
  }

  lemma LeafStrict(ks: seq<Key>, vs: seq<int>, k: Key, v: int, m: nat)
    requires m >= 2 && |ks| == |vs| && k !in ks && Increasing(ks)
    ensures var i := LowerIndex(ks, k); StrictGrown(SplitLeaf(ks[..i] + [k] + ks[i..], vs[..i] + [v] + vs[i..], m))
  {
    var i := LowerIndex(ks, k);
    var ks', vs' := ks[..i] + [k] + ks[i..], vs[..i] + [v] + vs[i..];
    assert Increasing(ks');
    SplitLeafStrict(ks', vs', m);
  }

  lemma SplitLeafStrict(ks: seq<Key>, vs: seq<int>, m: nat)
    requires m >= 2 && |ks| == |vs| && Increasing(ks)
    ensures StrictGrown(SplitLeaf(ks, vs, m))
  {
    if |ks| > m - 1 {
      var mid := |ks| / 2;
      assert Increasing(ks[..mid]) && Increasing(ks[mid..]);
      forall e | e in Zip(ks[..mid], vs[..mid]) ensures e.0 < ks[mid] {
        var j :| 0 <= j < mid && Zip(ks[..mid], vs[..mid])[j] == e;
      }
    }
  }

  lemma {:induction false} GrowStrict(t: VTree, k: Key, v: int, m: nat, d: nat, lo: Option<Key>, hi: Option<Key>)
    requires m >= 2 && Shape(t, m, d) && Ordered(t, lo, hi) && Within(k, lo, hi) && Strict(t) && Lacks(Flat(t), k)
    ensures StrictGrown(Grow(t, k, v, m))
    decreases t
  {
    match t
    case Leaf(_, ks, vs) =>
      assert k !in ks by {
        assert forall i | 0 <= i < |ks| :: Flat(t)[i] in Flat(t) && Flat(t)[i].0 == ks[i];
      }
      LeafStrict(ks, vs, k, v, m);
    case Inner(_, ks, kids) =>
      var c := ChildIndex(ks, k);
      assert Lacks(Flat(kids[c]), k) by {
        FlatAround(kids, c, []);
      }
      GrowStrict(kids[c], k, v, m, d - 1, Low(ks, lo, c), High(ks, hi, c));
      GrowOrdered(kids[c], k, v, m, Low(ks, lo, c), High(ks, hi, c));
      if c < |ks| {
        GrowBelow(kids[c], k, v, m, d - 1, ks[c]);
      }
      SeparatorFits(ks, c, Grow(kids[c], k, v, m), lo, hi);
      GraftStrict(ks, kids, c, Grow(kids[c], k, v, m), m);
  }

  lemma SeparatorFits(ks: seq<Key>, c: nat, g: Grown, lo: Option<Key>, hi: Option<Key>)
    requires NonDecreasing(ks) && c <= |ks| && OrderedGrown(g, Low(ks, lo, c), High(ks, hi, c))
    ensures g.Two? ==> NonDecreasing(ks[..c] + [g.sep] + ks[c..])
  {
  }

  lemma StrictChild<N>(t: Tree<N>, lo: Option<Key>, hi: Option<Key>, k: Key, e: Entry)
    requires t.Inner? && Ordered(t, lo, hi) && Strict(t) && e in Flat(t) && e.0 == k
    ensures e in Flat(t.kids[ChildIndex(t.keys, k)])
  {
    var j := FlatAllMember(t.kids, e);
    KidBounds(t, lo, hi, j, e);
    assert j < |t.keys| ==> Below(Flat(t.kids[j]), t.keys[j]);
  }

  lemma {:induction false} StrictFinds<N>(t: Tree<N>, lo: Option<Key>, hi: Option<Key>, k: Key, e: Entry)
    requires Ordered(t, lo, hi) && Strict(t) && e in Flat(t) && e.0 == k
    ensures FoundLeaf(t, k) < |Leaves(t)| && e in Flat(Leaves(t)[FoundLeaf(t, k)])
    decreases t
  {
    match t
    case Leaf(_, _, _) =>
    case Inner(_, ks, kids) =>
      var c := ChildIndex(ks, k);
      StrictChild(t, lo, hi, k, e);
      StrictFinds(kids[c], Low(ks, lo, c), High(ks, hi, c), k, e);
      FoundInChild(t, k);
  }

  // ---- deletion ----

  ghost predicate Removed(es: seq<Entry>, e: Entry, i: nat, es': seq<Entry>) {
    i < |es| && es[i] == e && es' == es[..i] + es[i + 1..]
  }

  lemma LeafDelete<N>(t: Tree<N>, k: Key, v: int)
    requires t.Leaf? && |t.keys| == |t.vals|
    ensures var i := Position(Flat(t), (k, v));
            if (k, v) in Flat(t) then Removed(Flat(t), (k, v), i, Flat(Delete(t, k, v))) else Delete(t, k, v) == t
  {
    var i := Position(Flat(t), (k, v));
    if i < |Flat(t)| {
      ZipRemove(t.keys, t.vals, i);
    }
  }

  lemma ZipRemove(ks: seq<Key>, vs: seq<int>, i: nat)
    requires i < |ks| == |vs|
    ensures Zip(ks[..i] + ks[i + 1..], vs[..i] + vs[i + 1..]) == Zip(ks, vs)[..i] + Zip(ks, vs)[i + 1..]
  {
  }

  lemma RemovedAmid(a: seq<Entry>, b: seq<Entry>, c: seq<Entry>, e: Entry, i: nat, b': seq<Entry>)
    requires Removed(b, e, i, b')
    ensures Removed(a + b + c, e, |a| + i, a + b' + c)
  {
  }

  ghost predicate Took(es: seq<Entry>, e: Entry, found: bool, i: nat, es': seq<Entry>) {
    if found then Removed(es, e, i, es') else es' == es
  }

  /** Deletion takes out one occurrence of the entry, if the found leaf has one, and nothing else. */
  lemma {:induction false} DeleteFlat<N>(t: Tree<N>, k: Key, v: int, lo: Option<Key>, hi: Option<Key>) returns (i: nat)
    requires Ordered(t, lo, hi)
    ensures FoundLeaf(t, k) < |Leaves(t)|
    ensures Took(Flat(t), (k, v), (k, v) in Flat(Leaves(t)[FoundLeaf(t, k)]), i, Flat(Delete(t, k, v)))
    decreases t
  {
    match t
    case Leaf(_, ks, vs) =>
      i := Position(Flat(t), (k, v));
      LeafDelete(t, k, v);
    case Inner(id, ks, kids) =>
      var c := ChildIndex(ks, k);
      var j := DeleteFlat(kids[c], k, v, Low(ks, lo, c), High(ks, hi, c));
      FoundInChild(t, k);
      i := |FlatAll(kids[..c])| + j;
      assert Delete(t, k, v) == Inner(id, ks, kids[c := Delete(kids[c], k, v)]);
      TookAmid(kids, c, Delete(kids[c], k, v), (k, v), (k, v) in Flat(Leaves(kids[c])[FoundLeaf(kids[c], k)]), j);
  }

  lemma TookAmid<N>(kids: seq<Tree<N>>, c: nat, kid: Tree<N>, e: Entry, found: bool, j: nat)
    requires c < |kids| && Took(Flat(kids[c]), e, found, j, Flat(kid))
    ensures Took(FlatAll(kids), e, found, |FlatAll(kids[..c])| + j, FlatAll(kids[c := kid]))
  {
    FlatReplaced(kids, c, kid);
    if found {
      RemovedAmid(FlatAll(kids[..c]), Flat(kids[c]), FlatAll(kids[c + 1..]), e, j, Flat(kid));
    }
  }

  lemma FlatReplaced<N>(kids: seq<Tree<N>>, c: nat, kid: Tree<N>)
    requires c < |kids|
    ensures FlatAll(kids) == FlatAll(kids[..c]) + Flat(kids[c]) + FlatAll(kids[c + 1..])
    ensures FlatAll(kids[c := kid]) == FlatAll(kids[..c]) + Flat(kid) + FlatAll(kids[c + 1..])
  {
    FlatAround(kids, c, [kid]);
    assert [kid][1..] == [] && kids[..c] + [kid] + kids[c + 1..] == kids[c := kid];
  }

  lemma {:induction false} DeleteShape<N>(t: Tree<N>, k: Key, v: int, m: nat, d: nat)
    requires Shape(t, m, d)
    ensures Shape(Delete(t, k, v), m, d)
    decreases t
  {
    if t.Inner? {
      DeleteShape(t.kids[ChildIndex(t.keys, k)], k, v, m, d - 1);
    }
  }

  lemma {:induction false} DeleteOrdered<N>(t: Tree<N>, k: Key, v: int, lo: Option<Key>, hi: Option<Key>)
    requires Ordered(t, lo, hi)
    ensures Ordered(Delete(t, k, v), lo, hi)
    decreases t
  {
    if t.Inner? {
      var c := ChildIndex(t.keys, k);
      DeleteOrdered(t.kids[c], k, v, Low(t.keys, lo, c), High(t.keys, hi, c));
    }
  }

  lemma {:induction false} DeleteStrict<N>(t: Tree<N>, k: Key, v: int, lo: Option<Key>, hi: Option<Key>)
    requires Ordered(t, lo, hi) && Strict(t)
    ensures Strict(Delete(t, k, v))
    decreases t
  {
    if t.Inner? {
      var c := ChildIndex(t.keys, k);
      var kid := t.kids[c];
      DeleteStrict(kid, k, v, Low(t.keys, lo, c), High(t.keys, hi, c));
      var i := DeleteFlat(kid, k, v, Low(t.keys, lo, c), High(t.keys, hi, c));
      KidShrinks(t, c, Delete(kid, k, v));
    }
  }

  lemma KidShrinks<N>(t: Tree<N>, c: nat, kid: Tree<N>)
    requires t.Inner? && Strict(t) && c < |t.kids| && Strict(kid)
    requires forall e | e in Flat(kid) :: e in Flat(t.kids[c])
    ensures Strict(t.(kids := t.kids[c := kid]))
  {
  }
}
