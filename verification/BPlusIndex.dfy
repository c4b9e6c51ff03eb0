/** What the index promises its users, over every sequence of calls. */
module BPlusIndex {
  import opened Wrappers
  import opened Sequences
  import opened BPlusTree
  import opened BPlusOrder
  import opened BPlusExact

  // ---- the answers ----

  /** The values stored under `k`, in leaf order. */
  function ValuesAt(es: seq<Entry>, k: Key): seq<int> {
    if es == [] then []
    else if es[0].0 == k then [es[0].1] + ValuesAt(es[1..], k) else ValuesAt(es[1..], k)
  }

  /** The values stored under keys between the given bounds. */
  function ValuesIn(es: seq<Entry>, lo: Option<Key>, hi: Option<Key>): seq<int> {
    if es == [] then []
    else if Within(es[0].0, lo, hi) then [es[0].1] + ValuesIn(es[1..], lo, hi) else ValuesIn(es[1..], lo, hi)
  }

  predicate Has(es: seq<Entry>, k: Key) {
    exists i | 0 <= i < |es| :: es[i].0 == k
  }

  /** `search`: nothing unless the leaf the descent finds has the key, and then every value. */
  function Search<N>(t: Tree<N>, k: Key): Option<seq<int>> {
    if FoundLeaf(t, k) < |Leaves(t)| && Has(Flat(Leaves(t)[FoundLeaf(t, k)]), k) then Some(ValuesAt(Flat(t), k)) else None
  }

  /** `search_range`: what the leaves hold from the one the descent finds onwards. */
  function RangeStart<N>(t: Tree<N>, lo: Option<Key>): nat {
    match lo
    case None => 0
    case Some(k) => FoundLeaf(t, k)
  }

  function SearchRange<N>(t: Tree<N>, lo: Option<Key>, hi: Option<Key>): seq<int> {
    var i := RangeStart(t, lo);
    if i <= |Leaves(t)| then ValuesIn(FlatAll(Leaves(t)[i..]), lo, hi) else []
  }

  lemma {:induction false} ValuesInAppend(a: seq<Entry>, b: seq<Entry>, lo: Option<Key>, hi: Option<Key>)
    ensures ValuesIn(a + b, lo, hi) == ValuesIn(a, lo, hi) + ValuesIn(b, lo, hi)
  {
    if a == [] {
      assert a + b == b;
    } else {
      ValuesInAppend(a[1..], b, lo, hi);
      ConsAppend(a, b);
    }
  }

  lemma {:induction false} ValuesInEmpty(es: seq<Entry>, lo: Option<Key>, hi: Option<Key>)
    ensures ValuesIn(es, lo, hi) == [] <==> forall e | e in es :: !Within(e.0, lo, hi)
  {
    if es != [] {
      ValuesInEmpty(es[1..], lo, hi);
      assert es == [es[0]] + es[1..];
    }
  }

  lemma {:induction false} ValuesAtCount(es: seq<Entry>, k: Key, v: int)
    ensures multiset(ValuesAt(es, k))[v] == multiset(es)[(k, v)]
  {
    if es != [] {
      ValuesAtCount(es[1..], k, v);
      assert es == [es[0]] + es[1..];
    }
  }

  lemma SameBagSameValues(a: seq<Entry>, b: seq<Entry>, k: Key)
    requires multiset(a) == multiset(b)
    ensures multiset(ValuesAt(a, k)) == multiset(ValuesAt(b, k))
  {
    var x, y := multiset(ValuesAt(a, k)), multiset(ValuesAt(b, k));
    forall v: int ensures x[v] == y[v] {
      ValuesAtCount(a, k, v);
      ValuesAtCount(b, k, v);
    }
    assert forall v: int :: x[v] == y[v];
    assert x == y;
  }

  // ---- any sequence of insertions ----

  /** The tree after inserting the pairs one by one into an empty index. */
  function Build(pairs: seq<Entry>, m: nat): VTree
    requires m >= 2
  {
    if pairs == [] then EMPTY
    else
      var n := |pairs| - 1;
      Insert(Build(pairs[..n], m), pairs[n].0, pairs[n].1, m)
  }

  /** Sorted nodes, separators least on their right, leaves all at one depth, nodes within bounds. */
  ghost predicate Sound(t: VTree, m: nat) {
    (exists d: nat :: Shape(t, m, d)) && Ordered(t, None, None) && Tight(t)
  }

  lemma InsertIsParts(t: VTree, k: Key, v: int, m: nat)
    requires m >= 2
    ensures Flat(Insert(t, k, v, m)) == FlatAll(Parts(Grow(t, k, v, m)))
  {
    var g := Grow(t, k, v, m);
    if g.One? {
      assert [g.t][1..] == [];
    } else {
      FlatAllTwo(g.l, g.r);
    }
  }

  lemma InsertShape(t: VTree, k: Key, v: int, m: nat, d: nat) returns (d': nat)
    requires m >= 2 && Shape(t, m, d)
    ensures Shape(Insert(t, k, v, m), m, d')
  {
    var g := Grow(t, k, v, m);
    GrowShape(t, k, v, m, d);
    if g.One? {
      assert g.t == Parts(g)[0];
      d' := d;
    } else {
      assert g.l == Parts(g)[0] && g.r == Parts(g)[1];
      d' := d + 1;
    }
  }

  lemma SplicedBag<T>(s: seq<T>, i: nat, x: T)
    requires i <= |s|
    ensures multiset(s[..i] + [x] + s[i..]) == multiset(s) + multiset{x}
  {
    assert s == s[..i] + s[i..];
  }

  lemma InsertSound(t: VTree, k: Key, v: int, m: nat)
    requires m >= 2 && Sound(t, m)
    ensures Sound(Insert(t, k, v, m), m)
    ensures multiset(Flat(Insert(t, k, v, m))) == multiset(Flat(t)) + multiset{(k, v)}
  {
    var d: nat :| Shape(t, m, d);
    var d' := InsertShape(t, k, v, m, d);
    InsertOrdered(t, k, v, m);
    InsertTight(t, k, v, m, d);
    var i := GrowFlat(t, k, v, m, d);
    InsertIsParts(t, k, v, m);
    SplicedBag(Flat(t), i, (k, v));
  }

  lemma InsertTight(t: VTree, k: Key, v: int, m: nat, d: nat)
    requires m >= 2 && Shape(t, m, d) && Ordered(t, None, None) && Tight(t)
    ensures Tight(Insert(t, k, v, m))
  {
    GrowTight(t, k, v, m, d, None, None);
  }

  /** Whatever is inserted, in whatever order, duplicates included. */
  lemma EmptySound(m: nat)
    requires m >= 2
    ensures Sound(EMPTY, m) && Flat(EMPTY) == []
  {
    assert Shape(EMPTY, m, 0);
  }

  lemma {:induction false} BuildSound(pairs: seq<Entry>, m: nat)
    requires m >= 2
    ensures Sound(Build(pairs, m), m)
    ensures multiset(Flat(Build(pairs, m))) == multiset(pairs)
  {
    hide Insert, Flat, Sound;
    if pairs == [] {
      EmptySound(m);
    } else {
      var n := |pairs| - 1;
      BuildSound(pairs[..n], m);
      InsertSound(Build(pairs[..n], m), pairs[n].0, pairs[n].1, m);
      assert pairs == pairs[..n] + [pairs[n]];
    }
  }

  lemma {:induction false} HasValues(es: seq<Entry>, k: Key)
    ensures Has(es, k) <==> ValuesAt(es, k) != []
  {
    if es != [] {
      HasValues(es[1..], k);
      assert Has(es[1..], k) ==> Has(es, k) by {
        if Has(es[1..], k) {
          var i :| 0 <= i < |es[1..]| && es[1..][i].0 == k;
          assert es[i + 1].0 == k;
        }
      }
    }
  }

  lemma LeafEntryInFlat<N>(t: Tree<N>, k: Key, e: Entry)
    requires Ordered(t, None, None)
    ensures FoundLeaf(t, k) < |Leaves(t)|
    ensures e in Flat(Leaves(t)[FoundLeaf(t, k)]) ==> e in Flat(t)
  {
    FoundLeafSplits(t, None, None, k);
    LeavesFlat(t);
    FlatAround(Leaves(t), FoundLeaf(t, k), []);
  }

  lemma LeafHasOnlyWhatTreeHas<N>(t: Tree<N>, k: Key)
    requires Ordered(t, None, None)
    ensures FoundLeaf(t, k) < |Leaves(t)|
    ensures Has(Flat(Leaves(t)[FoundLeaf(t, k)]), k) ==> Has(Flat(t), k)
  {
    LeafEntryInFlat(t, k, (k, 0));
    var leaf := Flat(Leaves(t)[FoundLeaf(t, k)]);
    if Has(leaf, k) {
      var i :| 0 <= i < |leaf| && leaf[i].0 == k;
      LeafEntryInFlat(t, k, leaf[i]);
    }
  }

  lemma SoundSearch(t: VTree, m: nat, k: Key)
    requires Sound(t, m)
    ensures Search(t, k) == if ValuesAt(Flat(t), k) == [] then None else Some(ValuesAt(Flat(t), k))
  {
    LeafHasOnlyWhatTreeHas(t, k);
    HasValues(Flat(t), k);
    if Has(Flat(t), k) {
      var i :| 0 <= i < |Flat(t)| && Flat(t)[i].0 == k;
      var e := TightFinds(t, None, None, k, Flat(t)[i]);
      assert Has(Flat(Leaves(t)[FoundLeaf(t, k)]), k);
    }
  }

  /** `search` after any insertions: exactly the values inserted under the key, as often as inserted. */
  lemma SearchFindsAll(pairs: seq<Entry>, m: nat, k: Key)
    requires m >= 2
    ensures var r := Search(Build(pairs, m), k);
            if r.None? then ValuesAt(pairs, k) == [] else multiset(r.value) == multiset(ValuesAt(pairs, k)) && r.value != []
  {
    var t := Build(pairs, m);
    BuildSound(pairs, m);
    SoundSearch(t, m, k);
    SameBagSameValues(Flat(t), pairs, k);
    var vs := ValuesAt(pairs, k);
    assert ValuesAt(Flat(t), k) == [] ==> multiset(vs) == multiset{};
    assert vs != [] ==> vs[0] in multiset(vs);
  }

  // ---- ranges ----

  /** Copies of the lower bound lie in a leaf before the one the descent finds. */
  ghost predicate Straddles<N>(t: Tree<N>, lo: Option<Key>) {
    lo.Some? && FoundLeaf(t, lo.value) < |Leaves(t)| && exists e | e in FlatAll(Leaves(t)[..FoundLeaf(t, lo.value)]) :: e.0 == lo.value
  }

  lemma SplitAtStart<N>(t: Tree<N>, lo: Option<Key>)
    requires Ordered(t, None, None)
    ensures RangeStart(t, lo) <= |Leaves(t)|
    ensures Flat(t) == FlatAll(Leaves(t)[..RangeStart(t, lo)]) + FlatAll(Leaves(t)[RangeStart(t, lo)..])
    ensures lo.None? ==> Leaves(t)[..RangeStart(t, lo)] == []
    ensures lo.Some? ==> AtMost(FlatAll(Leaves(t)[..RangeStart(t, lo)]), lo.value)
  {
    if lo.Some? {
      FoundLeafSplits(t, None, None, lo.value);
    }
    var ls, i := Leaves(t), RangeStart(t, lo);
    LeavesFlat(t);
    assert ls == ls[..i] + ls[i..];
    FlatAllAppend(ls[..i], ls[i..]);
  }

  /** A range search answers in key order, and completely unless copies of its lower bound straddle a
      leaf boundary. */
  lemma RangeCompleteIff<N>(t: Tree<N>, lo: Option<Key>, hi: Option<Key>)
    requires Ordered(t, None, None)
    ensures SearchRange(t, lo, hi) == ValuesIn(Flat(t), lo, hi)
            <==> (lo.Some? && hi.Some? && hi.value < lo.value) || !Straddles(t, lo)
    ensures SortedIn(Flat(t), None, None)
  {
    hide Flat, Ordered, ValuesIn;
    SplitAtStart(t, lo);
    var i := RangeStart(t, lo);
    var before, after := FlatAll(Leaves(t)[..i]), FlatAll(Leaves(t)[i..]);
    ValuesInAppend(before, after, lo, hi);
    ValuesInEmpty(before, lo, hi);
    OrderedFlat(t, None, None);
    if ValuesIn(before, lo, hi) == [] {
      assert SearchRange(t, lo, hi) == ValuesIn(Flat(t), lo, hi);
    } else {
      assert |SearchRange(t, lo, hi)| < |ValuesIn(Flat(t), lo, hi)|;
    }
    if lo.Some? {
      FoundLeafSplits(t, None, None, lo.value);
    }
  }

  /** What is missing is only ever under the lower bound itself. */
  lemma RangeMissesOnlyLow<N>(t: Tree<N>, lo: Key, hi: Option<Key>)
    requires Ordered(t, None, None)
    ensures exists missed: seq<Entry> ::
              (forall e | e in missed :: e.0 == lo)
              && ValuesIn(Flat(t), Some(lo), hi) == ValuesIn(missed, Some(lo), hi) + SearchRange(t, Some(lo), hi)
  {
    SplitAtStart(t, Some(lo));
    var before, after := FlatAll(Leaves(t)[..FoundLeaf(t, lo)]), FlatAll(Leaves(t)[FoundLeaf(t, lo)..]);
    ValuesInAppend(before, after, Some(lo), hi);
    var missed := OnlyAt(before, lo, hi);
    assert ValuesIn(Flat(t), Some(lo), hi) == ValuesIn(missed, Some(lo), hi) + SearchRange(t, Some(lo), hi);
  }

  lemma {:induction false} OnlyAt(es: seq<Entry>, lo: Key, hi: Option<Key>) returns (missed: seq<Entry>)
    requires AtMost(es, lo)
    ensures forall e | e in missed :: e.0 == lo
    ensures ValuesIn(missed, Some(lo), hi) == ValuesIn(es, Some(lo), hi)
  {
    if es == [] {
      missed := [];
    } else {
      var rest := OnlyAt(es[1..], lo, hi);
      missed := if es[0].0 == lo then [es[0]] + rest else rest;
      assert es[0].0 == lo ==> missed[1..] == rest;
    }
  }

  const ONES := [(1, 10), (1, 11), (1, 12)]
  const L1: VTree := Leaf((), [1], [12])
  const R1: VTree := Leaf((), [1, 1], [11, 10])

  lemma ThreeValues()
    ensures ValuesAt([(1, 12)] + [(1, 11), (1, 10)], 1) == [12, 11, 10]
  {
    var es := [(1, 12)] + [(1, 11), (1, 10)];
    assert es[1..] == [(1, 11), (1, 10)];
    TwoValues(1, 11, 10);
  }

  /** Three values under one key, nodes of two keys: the range search loses one. */
  lemma RangeLosesACopy()
    ensures SearchRange(Build(ONES, 3), Some(1), Some(1)) == [11, 10]
    ensures Search(Build(ONES, 3), 1) == Some([12, 11, 10])
  {
    BuildOnes();
    TwoLeafTree(L1, R1, 1, 1);
    assert Flat(L1) == [(1, 12)] && Flat(R1) == [(1, 11), (1, 10)];
    TwoValues(1, 11, 10);
    assert Flat(R1)[0].0 == 1;
    ThreeValues();
  }

  lemma LeavesOfOne<N>(t: Tree<N>)
    ensures LeavesAll([t]) == Leaves(t) && FlatAll([t]) == Flat(t)
  {
    assert [t][1..] == [];
  }

  lemma TwoLeafTree(l: VTree, r: VTree, s: Key, k: Key)
    requires l.Leaf? && r.Leaf? && s <= k
    ensures var t := Inner((), [s], [l, r]);
            && Leaves(t) == [l, r] && FoundLeaf(t, k) == 1 && Flat(t) == Flat(l) + Flat(r)
            && SearchRange(t, Some(k), Some(k)) == ValuesIn(Flat(r), Some(k), Some(k))
  {
    LeavesOfOne(l);
    LeavesOfOne(r);
    FlatAllTwo(l, r);
    assert [l, r][1..] == [r] && [l, r][..1] == [l];
    assert ChildIndex([s], k) == 1;
  }

  lemma BuildOnes()
    ensures Build(ONES, 3) == Inner((), [1], [L1, R1])
  {
    assert ONES[..2][..1][..0] == [] && ONES[..2][..1] == [(1, 10)] && ONES[..2] == [(1, 10), (1, 11)];
    assert Build([], 3) == EMPTY;
    assert Build(ONES[..2][..1], 3) == Leaf((), [1], [10]) by {
      assert LowerIndex([], 1) == 0;
    }
    assert Build(ONES[..2], 3) == R1 by {
      assert LowerIndex([1], 1) == 0;
      assert [1][..0] + [1] + [1][0..] == [1, 1] && [10][..0] + [11] + [10][0..] == [11, 10];
    }
    SplitThree();
  }

  lemma SplitThree()
    ensures Grow(Leaf((), [1, 1], [11, 10]), 1, 12, 3) == Two(Leaf((), [1], [12]), 1, Leaf((), [1, 1], [11, 10]))
  {
    var ks, vs := [1, 1, 1], [12, 11, 10];
    assert LowerIndex([1, 1], 1) == 0;
    assert [1, 1][..0] + [1] + [1, 1][0..] == ks && [11, 10][..0] + [12] + [11, 10][0..] == vs;
    assert ks[..1] == [1] && ks[1..] == [1, 1] && vs[..1] == [12] && vs[1..] == [11, 10];
    assert SplitLeaf(ks, vs, 3) == Two(Leaf((), [1], [12]), 1, Leaf((), [1, 1], [11, 10]));
  }

  lemma TwoValues(k: Key, v: int, w: int)
    ensures ValuesIn([(k, v), (k, w)], Some(k), Some(k)) == [v, w] && ValuesAt([(k, v), (k, w)], k) == [v, w]
  {
    assert [(k, v), (k, w)][1..] == [(k, w)] && [(k, w)][1..] == [];
    assert ValuesIn([(k, w)], Some(k), Some(k)) == [w] && ValuesAt([(k, w)], k) == [w];
  }

  // ---- distinct keys: the index is a map ----

  ghost predicate Distinct(es: seq<Entry>) {
    forall i, j | 0 <= i < j < |es| :: es[i].0 != es[j].0
  }

  /** The entries, which have distinct keys, as a map. */
  ghost predicate Represents(es: seq<Entry>, c: map<Key, int>) {
    && Distinct(es)
    && (forall e | e in es :: e.0 in c && c[e.0] == e.1)
    && (forall k | k in c :: (k, c[k]) in es)
  }

  ghost predicate IsMap(t: VTree, m: nat, c: map<Key, int>) {
    (exists d: nat :: Shape(t, m, d)) && Ordered(t, None, None) && Strict(t) && Represents(Flat(t), c)
  }

  lemma EmptyIsMap(m: nat)
    requires m >= 2
    ensures IsMap(EMPTY, m, map[])
  {
    assert Shape(EMPTY, m, 0);
  }

  lemma SplicedMembers<T>(s: seq<T>, i: nat, x: T)
    requires i <= |s|
    ensures forall y :: y in s[..i] + [x] + s[i..] <==> y in s || y == x
  {
    assert s == s[..i] + s[i..];
  }

  lemma SplicedDistinct(es: seq<Entry>, i: nat, e: Entry)
    requires Distinct(es) && i <= |es| && forall x | x in es :: x.0 != e.0
    ensures Distinct(es[..i] + [e] + es[i..])
  {
    var es' := es[..i] + [e] + es[i..];
    assert forall a | 0 <= a < i :: es'[a] == es[a];
    assert forall a | i < a < |es'| :: es'[a] == es[a - 1];
  }

  lemma RepresentsInsert(es: seq<Entry>, c: map<Key, int>, i: nat, k: Key, v: int)
    requires Represents(es, c) && i <= |es| && k !in c
    ensures Represents(es[..i] + [(k, v)] + es[i..], c[k := v])
  {
    SplicedMembers(es, i, (k, v));
    SplicedDistinct(es, i, (k, v));
    forall k': Key | k' in c && k' != k ensures (k', c[k']) in es {
    }
  }

  lemma MapInsert(t: VTree, k: Key, v: int, m: nat, c: map<Key, int>)
    requires m >= 2 && IsMap(t, m, c) && k !in c
    ensures IsMap(Insert(t, k, v, m), m, c[k := v])
  {
    var d: nat :| Shape(t, m, d);
    var d' := InsertShape(t, k, v, m, d);
    InsertOrdered(t, k, v, m);
    InsertStrict(t, k, v, m, d);
    var i := GrowFlat(t, k, v, m, d);
    InsertIsParts(t, k, v, m);
    RepresentsInsert(Flat(t), c, i, k, v);
  }

  lemma InsertStrict(t: VTree, k: Key, v: int, m: nat, d: nat)
    requires m >= 2 && Shape(t, m, d) && Ordered(t, None, None) && Strict(t) && Lacks(Flat(t), k)
    ensures Strict(Insert(t, k, v, m))
  {
    GrowStrict(t, k, v, m, d, None, None);
  }

  lemma RepresentsRemove(es: seq<Entry>, c: map<Key, int>, i: nat)
    requires Represents(es, c) && i < |es|
    ensures Represents(es[..i] + es[i + 1..], c - {es[i].0})
  {
    var es', k := es[..i] + es[i + 1..], es[i].0;
    forall e | e in es' ensures e.0 in c - {k} && (c - {k})[e.0] == e.1 {
      var j :| 0 <= j < |es'| && es'[j] == e;
      assert e == es[if j < i then j else j + 1];
    }
    forall k': Key | k' in c - {k} ensures (k', c[k']) in es' {
      var j :| 0 <= j < |es| && es[j] == (k', c[k']);
      assert es'[if j < i then j else j - 1] == es[j];
    }
  }

  /** Deleting a pair that is not in the index changes nothing. */
  lemma MapDelete(t: VTree, k: Key, v: int, m: nat, c: map<Key, int>)
    requires m >= 2 && IsMap(t, m, c)
    ensures IsMap(Delete(t, k, v), m, if k in c && c[k] == v then c - {k} else c)
  {
    var d: nat :| Shape(t, m, d);
    DeleteShape(t, k, v, m, d);
    DeleteOrdered(t, k, v, None, None);
    DeleteStrict(t, k, v, None, None);
    var i := DeleteFlat(t, k, v, None, None);
    if k in c && c[k] == v {
      StrictFinds(t, None, None, k, (k, v));
      RepresentsRemove(Flat(t), c, i);
    } else {
      LeafEntryInFlat(t, k, (k, v));
    }
  }

  lemma {:induction false} DistinctValues(es: seq<Entry>, k: Key, v: int)
    requires Distinct(es) && (k, v) in es
    ensures ValuesAt(es, k) == [v]
  {
    if es[0].0 == k {
      assert es[0] == (k, v);
      NoValues(es[1..], k);
    } else {
      assert (k, v) in es[1..];
      DistinctValues(es[1..], k, v);
    }
  }

  lemma {:induction false} NoValues(es: seq<Entry>, k: Key)
    requires forall e | e in es :: e.0 != k
    ensures ValuesAt(es, k) == []
  {
    if es != [] {
      NoValues(es[1..], k);
    }
  }

  /** Lookup, and range search in full, under distinct keys. */
  lemma MapLookup(t: VTree, m: nat, c: map<Key, int>, k: Key)
    requires IsMap(t, m, c)
    ensures Search(t, k) == if k in c then Some([c[k]]) else None
  {
    LeafEntryInFlat(t, k, (k, 0));
    var leaf := Flat(Leaves(t)[FoundLeaf(t, k)]);
    if k in c {
      StrictFinds(t, None, None, k, (k, c[k]));
      var i :| 0 <= i < |leaf| && leaf[i] == (k, c[k]);
      DistinctValues(Flat(t), k, c[k]);
    } else if Has(leaf, k) {
      var i :| 0 <= i < |leaf| && leaf[i].0 == k;
      LeafEntryInFlat(t, k, leaf[i]);
      assert false;
    }
  }

  lemma MapRange(t: VTree, m: nat, c: map<Key, int>, lo: Option<Key>, hi: Option<Key>)
    requires IsMap(t, m, c)
    ensures SearchRange(t, lo, hi) == ValuesIn(Flat(t), lo, hi) && SortedIn(Flat(t), None, None)
  {
    RangeCompleteIff(t, lo, hi);
    if lo.Some? {
      NoStraddle(t, lo.value);
    }
  }

  lemma NoStraddle(t: VTree, k: Key)
    requires Ordered(t, None, None) && Strict(t) && Distinct(Flat(t))
    ensures !Straddles(t, Some(k))
  {
    FoundLeafSplits(t, None, None, k);
    LeavesFlat(t);
    var ls, f := Leaves(t), FoundLeaf(t, k);
    FlatAround(ls, f, []);
    forall e | e in FlatAll(ls[..f]) ensures e.0 != k {
      assert e in Flat(t);
      if e.0 == k {
        StrictFinds(t, None, None, k, e);
        Twice(FlatAll(ls[..f]), Flat(ls[f]), FlatAll(ls[f + 1..]), e);
      }
    }
  }

  lemma Twice(a: seq<Entry>, b: seq<Entry>, c: seq<Entry>, e: Entry)
    requires e in a && e in b
    ensures !Distinct(a + b + c)
  {
    var i :| 0 <= i < |a| && a[i] == e;
    var j :| 0 <= j < |b| && b[j] == e;
    assert (a + b + c)[i] == e && (a + b + c)[|a| + j] == e;
  }
}
