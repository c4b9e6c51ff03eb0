/** Saving the linked tree, and loading it into fresh nodes. */
module BPlusStore {
  import opened Wrappers
  import opened BPlusTree
  import opened BPlusOrder
  import opened BPlusHeap
  import opened BPlusSteps
  import opened BPlusView
  import opened BPlusNodes
  import opened NodeCodec
  import BPlusIndex

  // ---- what is saved of the linked tree ----

  /** The tree with each node's order in place of the node. */
  function Tag(t: HTree): Tree<nat> {
    match t
    case Leaf(id, ks, vs) => Leaf(id.order, ks, vs)
    case Inner(id, ks, kids) => Inner(id.order, ks, TagAll(kids))
  }

  function TagAll(ts: seq<HTree>): (us: seq<Tree<nat>>)
    ensures |us| == |ts| && forall i | 0 <= i < |ts| :: us[i] == Tag(ts[i])
  {
    if ts == [] then [] else [Tag(ts[0])] + TagAll(ts[1..])
  }

  lemma {:induction false} TagStrip(t: HTree)
    ensures Strip(Tag(t)) == Strip(t)
    decreases t, 1
  {
    if t.Inner? {
      TagStripAll(t.kids);
    }
  }

  lemma {:induction false} TagStripAll(ts: seq<HTree>)
    ensures StripAll(TagAll(ts)) == StripAll(ts)
    decreases ts, 0
  {
    if ts != [] {
      TagStrip(ts[0]);
      TagStripAll(ts[1..]);
      assert TagAll(ts)[1..] == TagAll(ts[1..]);
    }
  }

  // ---- writing ----

  method SerializeNode(node: Node, u: Texts, ghost t: HTree, ghost ns: set<Node>) returns (r: Option<seq<Byte>>)
    requires Rep(Snap(ns), t) && t.id == node
    ensures r == Encode(Tag(t), u)
    decreases t, 1
  {
    hide Encode, EncodeVals, EncodeKeys, EncodeKids, Header;
    HeaderFirst(Tag(t), u);
    r := WriteHeader(node.order, node.leaf, node.keys, if node.leaf then |node.vals| else |node.kids|, u);
    if r.Some? {
      if node.leaf {
        r := WriteVals(r.value, node.vals);
      } else {
        r := SerializeKids(r.value, node.kids, u, t.kids, ns);
      }
    }
  }

  method SerializeKids(data: seq<Byte>, kids: seq<Node>, u: Texts, ghost ts: seq<HTree>, ghost ns: set<Node>) returns (r: Option<seq<Byte>>)
    requires RepAll(Snap(ns), ts) && Roots(ts) == kids
    ensures r == Then(Some(data), EncodeKids(TagAll(ts), u))
    decreases ts, 0
  {
    hide Encode, Tag;
    ghost var us := TagAll(ts);
    r := Some(data);
    var i := 0;
    while i < |kids|
      invariant i <= |kids| && r.Some? && RepAll(Snap(ns), ts[i..])
      invariant Then(r, EncodeKids(us[i..], u)) == Then(Some(data), EncodeKids(us, u))
    {
      assert ts[i..][0] == ts[i] && ts[i..][1..] == ts[i + 1..];
      assert us[i..][0] == us[i] && us[i..][1..] == us[i + 1..];
      var child := SerializeNode(kids[i], u, ts[i], ns);
      var len := if child.Some? then Word(|child.value|) else None;
      ThenAssoc(r, Then(len, child), EncodeKids(us[i + 1..], u));
      ThenAssoc(r, len, child);
      if len.None? {
        return None;
      }
      r := Some(r.value + len.value + child.value);
      i := i + 1;
    }
    assert us[i..] == [];
    NothingMore(r);
  }

  // ---- reading ----

  /** New nodes holding a tree, none of them linked yet. */
  ghost predicate Built(ns: set<Node>, ts: seq<HTree>)
    reads ns
  {
    RepAll(Snap(ns), ts) && Once(IdsAll(ts)) && (forall n | n in IdsAll(ts) :: n in ns) && forall n | n in ns :: n.next == null
  }

  lemma BuiltLeaf(node: Node, t: HTree)
    requires t.Leaf? && t.id == node && node.next == null && node.leaf && node.keys == t.keys && node.vals == t.vals && node.kids == []
    ensures Built({node}, [t])
  {
    BPlusHeap.Alone(Snap({node}), t);
  }

  lemma BuiltInner(node: Node, t: HTree, ns: set<Node>)
    requires t.Inner? && t.id == node && node !in ns && Built(ns, t.kids)
    requires node.next == null && !node.leaf && node.keys == t.keys && node.vals == [] && node.kids == Roots(t.kids)
    ensures Built(ns + {node}, [t])
  {
    var all := ns + {node};
    RepAllFrame(Snap(ns), Snap(all), t.kids);
    BPlusHeap.Alone(Snap(all), t);
    assert IdsAll([t]) == multiset{node} + IdsAll(t.kids);
  }

  /** What two parts built apart hold together. */
  lemma BuiltJoin(ns: set<Node>, ts: seq<HTree>, ms: set<Node>, us: seq<HTree>)
    requires Built(ns, ts) && Built(ms, us) && ns !! ms
    ensures Built(ns + ms, ts + us)
  {
    var h := Snap(ns + ms);
    RepAllFrame(Snap(ns), h, ts);
    RepAllFrame(Snap(ms), h, us);
    RepAllAppend(h, ts, us);
    IdsAppend(ts, us);
    forall n | n in IdsAll(ts) + IdsAll(us) ensures (IdsAll(ts) + IdsAll(us))[n] == 1 {
      assert n in IdsAll(ts) ==> n !in IdsAll(us);
    }
  }

  lemma BuiltNothing()
    ensures Built({}, []) && Roots([]) == [] && TagAll([]) == []
  {
  }

  lemma TagMore(ts: seq<HTree>, t: HTree)
    ensures TagAll(ts + [t]) == TagAll(ts) + [Tag(t)] && Roots(ts + [t]) == Roots(ts) + [t.id]
  {
  }

  method DeserializeNode(b: seq<Byte>, offset: nat, u: Texts) returns (r: Option<Read<Node>>, ghost ts: seq<HTree>, ghost ns: set<Node>)
    ensures fresh(ns) && (r.Some? <==> Decode(b, offset, u).Some?)
    ensures r.Some? ==> |ts| == 1 && Built(ns, ts) && ts[0].id == r.value.value
    ensures r.Some? ==> Decode(b, offset, u) == Some(Read(Tag(ts[0]), r.value.end))
    decreases Left(b, offset), 1, 0
  {
    hide Slice, WordAt, Built, DecodeKeys, DecodeVals, DecodeKids;
    ts, ns := [], {};
    if offset + 4 >= |b| {
      return None, ts, ns;
    }
    var order, leaf := WordAt(b, offset), b[offset + 4] == 1;
    var keys := ReadKeys(b, offset + 9, WordAt(b, offset + 5), u);
    if keys.None? {
      return None, ts, ns;
    }
    var i := keys.value.end;
    KeysForward(b, offset + 9, WordAt(b, offset + 5), u);
    var n := WordAt(b, i);
    if leaf {
      var vals := ReadVals(b, i + 4, n);
      var node := NewLeaf(order, keys.value.value, vals.value);
      ts, ns := [Leaf(node, keys.value.value, vals.value)], {node};
      BuiltLeaf(node, ts[0]);
      r := Some(Read(node, vals.end));
    } else {
      var kids;
      kids, ts, ns := DeserializeKids(b, i + 4, n, u);
      if kids.None? {
        return None, ts, ns;
      }
      var node := NewParent(order, keys.value.value, kids.value.value);
      ghost var t := Inner(node, keys.value.value, ts);
      BuiltInner(node, t, ns);
      ts, ns := [t], ns + {node};
      r := Some(Read(node, kids.value.end));
    }
  }

  method NewLeaf(order: nat, keys: seq<Key>, vals: seq<int>) returns (n: Node)
    ensures fresh(n) && n.order == order && n.leaf && n.keys == keys && n.vals == vals && n.kids == [] && n.next == null
  {
    n := new Node(order, true);
    n.keys, n.vals := keys, vals;
  }

  method NewParent(order: nat, keys: seq<Key>, kids: seq<Node>) returns (n: Node)
    ensures fresh(n) && n.order == order && !n.leaf && n.keys == keys && n.vals == [] && n.kids == kids && n.next == null
  {
    n := new Node(order, false);
    n.keys, n.kids := keys, kids;
  }

  method DeserializeKids(b: seq<Byte>, offset: nat, n: nat, u: Texts)
    returns (r: Option<Read<seq<Node>>>, ghost ts: seq<HTree>, ghost ns: set<Node>)
    ensures fresh(ns) && (r.Some? <==> DecodeKids(b, offset, n, u).Some?)
    ensures r.Some? ==> Built(ns, ts) && Roots(ts) == r.value.value && DecodeKids(b, offset, n, u) == Some(Read(TagAll(ts), r.value.end))
    decreases Left(b, offset), 0, n
  {
    hide Built, Decode, Tag, TagAll, Roots;
    ts, ns := [], {};
    BuiltNothing();
    var kids, i, j := [], offset, 0;
    AllRead(TagAll(ts), DecodeKids(b, i, n, u));
    while j < n
      invariant j <= n && i >= offset && fresh(ns) && Built(ns, ts) && kids == Roots(ts)
      invariant Prefixed(TagAll(ts), DecodeKids(b, i, n - j, u)) == DecodeKids(b, offset, n, u)
    {
      if i + 4 >= |b| {
        return None, ts, ns;
      }
      var kid, us, ms := DeserializeNode(b, i + 4, u);
      if kid.None? {
        return None, ts, ns;
      }
      BuiltJoin(ns, ts, ms, us);
      assert us == [us[0]];
      TagMore(ts, us[0]);
      OneMore(TagAll(ts), Tag(us[0]), DecodeKids(b, kid.value.end, n - j - 1, u));
      ts, ns := ts + us, ns + ms;
      kids, i, j := kids + [kid.value.value], kid.value.end, j + 1;
    }
    assert TagAll(ts) + [] == TagAll(ts);
    r := Some(Read(kids, i));
  }

  // ---- the two together ----

  /** The saved nodes again, their leaves linked in order. */
  method LoadNodes(b: seq<Byte>, u: Texts) returns (r: Option<Node>, ghost t: Option<HTree>, ghost ns: set<Node>)
    ensures fresh(ns) && (r.Some? <==> Decode(b, 0, u).Some?) && (t.Some? <==> r.Some?)
    ensures r.Some? ==> t.value.id == r.value && Holds(Snap(ns), Links(ns), t.value) && Tag(t.value) == Decode(b, 0, u).value.value
  {
    hide Holds, Chain, Rep, Once, Ids, Built, Tag, LeafIds, Decode;
    var node;
    ghost var ts;
    node, ts, ns := DeserializeNode(b, 0, u);
    if node.None? {
      return None, None, ns;
    }
    assert ts == [ts[0]];
    BuiltOne(ns, ts[0]);
    var leaves := RebuildLeafLinks(node.value.value, ts[0], ns);
    ChainOf(ns, ts[0]);
    r, t := Some(node.value.value), Some(ts[0]);
  }

  /** `load`: an index of the default order over the saved nodes. */
  method Load(b: seq<Byte>, u: Texts) returns (r: Option<BPlusTreeIndex>)
    ensures r.Some? <==> Decode(b, 0, u).Some?
    ensures r.Some? ==> fresh(r.value) && fresh(r.value.repr) && r.value.order == 5 && r.value.root == r.value.shape.id
    ensures r.Some? ==> Holds(Snap(r.value.repr), Links(r.value.repr), r.value.shape)
    ensures r.Some? ==> Tag(r.value.shape) == Decode(b, 0, u).value.value
    ensures r.Some? && (exists d: nat :: Shape(r.value.shape, 5, d)) && Ordered(r.value.shape, None, None) ==> r.value.Valid()
  {
    hide Holds, Snap, Links, Tag, Shape, Ordered, Decode;
    var node, t, ns := LoadNodes(b, u);
    if node.None? {
      return None;
    }
    var index := new BPlusTreeIndex(5);
    index.root, index.repr, index.shape := node.value, ns, t.value;
    r := Some(index);
  }

  lemma BuiltOne(ns: set<Node>, t: HTree)
    requires Built(ns, [t])
    ensures Rep(Snap(ns), t) && Once(Ids(t)) && forall n | n in ns :: n.next == null
  {
    BPlusHeap.Alone(Snap(ns), t);
  }

  /** Leaves linked one to the next, the last to nothing, are the chain the index needs. */
  lemma ChainOf(ns: set<Node>, t: HTree)
    requires Rep(Snap(ns), t) && Once(Ids(t)) && forall i | 0 <= i < |LeafIds(t)| :: LeafIds(t)[i] in ns
    requires forall i | 0 <= i < |LeafIds(t)| - 1 :: LeafIds(t)[i].next == LeafIds(t)[i + 1]
    requires LeafIds(t) != [] ==> LeafIds(t)[|LeafIds(t)| - 1].next == null
    ensures Holds(Snap(ns), Links(ns), t)
  {
  }

  /** Whatever an index holds, saving and loading give it back: the same tree, with every node's order,
      and, where nodes fit the default order, an index in good order again. */
  method SaveAndLoad(index: BPlusTreeIndex, u: Texts) returns (r: Option<BPlusTreeIndex>)
    requires index.Valid() && Inverse(u)
    ensures r.Some? <==> Encode(Tag(index.shape), u).Some?
    ensures r.Some? ==> Tag(r.value.shape) == Tag(index.shape) && r.value.Tree() == index.Tree()
    ensures r.Some? && index.order <= 5 ==> r.value.Valid()
  {
    hide Holds, Chain, Rep, Once, Ids, Tag, Shape, Ordered, Decode, Encode, Strip;
    RepOf(index);
    var saved := SerializeNode(index.root, u, index.shape, index.repr);
    if saved.None? {
      return None;
    }
    WholeRoundTrip(saved.value, Tag(index.shape), u);
    r := Load(saved.value, u);
    TagStrip(index.shape);
    TagStrip(r.value.shape);
    SameGoodOrder(index.shape, r.value.shape, index.order);
  }

  lemma RepOf(index: BPlusTreeIndex)
    requires index.Valid()
    ensures Rep(Snap(index.repr), index.shape) && index.root == index.shape.id
  {
  }

  lemma WholeRoundTrip(b: seq<Byte>, t: Tree<nat>, u: Texts)
    requires Inverse(u) && Encode(t, u) == Some(b)
    ensures Decode(b, 0, u) == Some(Read(t, |b|))
  {
    assert b[0..|b|] == b;
    RoundTrip(b, 0, t, u);
  }

  lemma SameGoodOrder(t: HTree, t': HTree, m: nat)
    requires Strip(t) == Strip(t') && (exists d: nat :: Shape(t, m, d)) && Ordered(t, None, None)
    ensures Ordered(t', None, None) && (m <= 5 ==> exists d: nat :: Shape(t', 5, d))
  {
    var d: nat :| Shape(t, m, d);
    StripOrdered(t, None, None);
    StripOrdered(t', None, None);
    StripShape(t, m, d);
    StripShape(t', m, d);
    if m <= 5 {
      ShapeLoosens(t', m, 5, d);
    }
  }

  lemma {:induction false} ShapeLoosens<N>(t: Tree<N>, m: nat, m': nat, d: nat)
    requires Shape(t, m, d) && m <= m'
    ensures Shape(t, m', d)
    decreases t
  {
    if t.Inner? {
      forall i | 0 <= i < |t.kids| ensures Shape(t.kids[i], m', d - 1) {
        ShapeLoosens(t.kids[i], m, m', d - 1);
      }
    }
  }

  // ---- creating an index over a table ----

  /** The key of each row with the row's number. */
  function Rows(keys: seq<Key>): (es: seq<Entry>)
    ensures |es| == |keys| && forall i | 0 <= i < |keys| :: es[i] == (keys[i], i)
  {
    if keys == [] then [] else Rows(keys[..|keys| - 1]) + [(keys[|keys| - 1], |keys| - 1)]
  }

  method Create(keys: seq<Key>, order: nat) returns (index: BPlusTreeIndex)
    requires order >= 2
    ensures fresh(index) && fresh(index.repr) && index.Valid() && index.order == order
    ensures forall n | n in index.repr :: n.order == order
    ensures index.Tree() == BPlusIndex.Build(Rows(keys), order)
  {
    hide *;
    index := new BPlusTreeIndex(order);
    BuildNone(keys, order);
    var i := 0;
    while i < |keys|
      invariant i <= |keys| && index.Valid() && index.order == order && fresh(index) && fresh(index.repr)
      invariant forall n | n in index.repr :: n.order == order
      invariant index.Tree() == BPlusIndex.Build(Rows(keys)[..i], order)
    {
      index.Insert(keys[i], i);
      BuildMore(keys, i, order);
      i := i + 1;
    }
    assert Rows(keys)[..i] == Rows(keys);
  }

  lemma BuildNone(keys: seq<Key>, m: nat)
    requires m >= 2
    ensures BPlusIndex.Build(Rows(keys)[..0], m) == EMPTY
  {
  }

  lemma BuildMore(keys: seq<Key>, i: nat, m: nat)
    requires m >= 2 && i < |keys|
    ensures BPlusIndex.Build(Rows(keys)[..i + 1], m) == BPlusTree.Insert(BPlusIndex.Build(Rows(keys)[..i], m), keys[i], i, m)
  {
    hide Rows, BPlusTree.Insert;
    assert Rows(keys)[..i + 1][..i] == Rows(keys)[..i];
  }

  /** A search in a created index lists each row with the key once, and no other. */
  lemma CreatedFindsRows(keys: seq<Key>, m: nat, k: Key)
    requires m >= 2
    ensures var r := BPlusIndex.Search(BPlusIndex.Build(Rows(keys), m), k);
            && (r.None? <==> k !in keys)
            && (r.Some? ==> forall i :: multiset(r.value)[i] == if 0 <= i < |keys| && keys[i] == k then 1 else 0)
  {
    BPlusIndex.SearchFindsAll(Rows(keys), m, k);
    var vs := BPlusIndex.ValuesAt(Rows(keys), k);
    RowValues(keys, k);
    forall i: int ensures multiset(vs)[i] == if 0 <= i < |keys| && keys[i] == k then 1 else 0 {
      BPlusIndex.ValuesAtCount(Rows(keys), k, i);
      RowCount(keys, k, i);
    }
  }

  lemma RowValues(keys: seq<Key>, k: Key)
    ensures BPlusIndex.ValuesAt(Rows(keys), k) != [] <==> k in keys
  {
    BPlusIndex.HasValues(Rows(keys), k);
    if k in keys {
      var i :| 0 <= i < |keys| && keys[i] == k;
      assert Rows(keys)[i].0 == k;
    }
  }

  lemma {:induction false} RowCount(keys: seq<Key>, k: Key, i: int)
    ensures multiset(Rows(keys))[(k, i)] == if 0 <= i < |keys| && keys[i] == k then 1 else 0
  {
    if keys != [] {
      RowCount(keys[..|keys| - 1], k, i);
    }
  }
}
