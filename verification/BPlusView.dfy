/** Names do not matter: the linked tree and its value have the same entries and answer alike. And the
    descents, seen as contexts, arrive at the leaves the value tree calls found and first. */
module BPlusView {
  import opened Wrappers
  import opened Sequences
  import opened BPlusTree
  import opened BPlusOrder
  import opened BPlusIndex
  import opened BPlusHeap

  // ---- forgetting the names ----

  lemma {:induction false} StripFlat<N>(t: Tree<N>)
    ensures Flat(Strip(t)) == Flat(t)
    decreases t, 1
  {
    if t.Inner? {
      StripFlatAll(t.kids);
    }
  }

  lemma {:induction false} StripFlatAll<N>(ts: seq<Tree<N>>)
    ensures FlatAll(StripAll(ts)) == FlatAll(ts)
    decreases ts, 0
  {
    if ts != [] {
      StripFlat(ts[0]);
      StripFlatAll(ts[1..]);
      assert StripAll(ts)[1..] == StripAll(ts[1..]);
    }
  }

  lemma StripSlice<N>(ts: seq<Tree<N>>, i: nat, j: nat)
    requires i <= j <= |ts|
    ensures StripAll(ts[i..j]) == StripAll(ts)[i..j]
  {
  }

  lemma StripJoin<N>(a: seq<Tree<N>>, b: seq<Tree<N>>)
    ensures StripAll(a + b) == StripAll(a) + StripAll(b)
  {
  }

  lemma {:induction false} StripLeaves<N>(t: Tree<N>)
    ensures Leaves(Strip(t)) == StripAll(Leaves(t))
    decreases t, 1
  {
    if t.Inner? {
      StripLeavesAll(t.kids);
    }
  }

  lemma {:induction false} StripLeavesAll<N>(ts: seq<Tree<N>>)
    ensures LeavesAll(StripAll(ts)) == StripAll(LeavesAll(ts))
    decreases ts, 0
  {
    if ts != [] {
      StripLeaves(ts[0]);
      StripLeavesAll(ts[1..]);
      assert StripAll(ts)[1..] == StripAll(ts[1..]);
      StripJoin(Leaves(ts[0]), LeavesAll(ts[1..]));
    }
  }

  lemma {:induction false} StripFound<N>(t: Tree<N>, k: Key)
    ensures FoundLeaf(Strip(t), k) == FoundLeaf(t, k)
    decreases t
  {
    if t.Inner? {
      var c := ChildIndex(t.keys, k);
      if c < |t.kids| {
        StripFound(t.kids[c], k);
        StripSlice(t.kids, 0, c);
        StripLeavesAll(t.kids[..c]);
      }
    }
  }

  lemma {:induction false} StripShape<N>(t: Tree<N>, m: nat, d: nat)
    ensures Shape(Strip(t), m, d) <==> Shape(t, m, d)
    decreases t
  {
    if t.Inner? && d > 0 {
      forall i | 0 <= i < |t.kids| ensures Shape(Strip(t.kids[i]), m, d - 1) <==> Shape(t.kids[i], m, d - 1) {
        StripShape(t.kids[i], m, d - 1);
      }
    }
  }

  lemma {:induction false} StripOrdered<N>(t: Tree<N>, lo: Option<Key>, hi: Option<Key>)
    ensures Ordered(Strip(t), lo, hi) <==> Ordered(t, lo, hi)
    decreases t
  {
    if t.Inner? && |t.kids| == |t.keys| + 1 {
      forall i | 0 <= i < |t.kids|
        ensures Ordered(Strip(t.kids[i]), Low(t.keys, lo, i), High(t.keys, hi, i)) <==> Ordered(t.kids[i], Low(t.keys, lo, i), High(t.keys, hi, i))
      {
        StripOrdered(t.kids[i], Low(t.keys, lo, i), High(t.keys, hi, i));
      }
    }
  }

  lemma StripSearch<N>(t: Tree<N>, k: Key)
    ensures Search(Strip(t), k) == Search(t, k)
  {
    StripFlat(t);
    StripLeaves(t);
    StripFound(t, k);
    if FoundLeaf(t, k) < |Leaves(t)| {
      StripFlat(Leaves(t)[FoundLeaf(t, k)]);
    }
  }

  lemma StripFlatFrom<N>(ts: seq<Tree<N>>, i: nat)
    requires i <= |ts|
    ensures FlatAll(StripAll(ts)[i..]) == FlatAll(ts[i..])
  {
    StripFlatAll(ts[i..]);
    assert StripAll(ts[i..]) == StripAll(ts)[i..];
  }

  lemma StripRangeStart<N>(t: Tree<N>, lo: Option<Key>)
    ensures RangeStart(Strip(t), lo) == RangeStart(t, lo)
  {
    if lo.Some? {
      StripFound(t, lo.value);
    }
  }

  lemma StripSearchRange<N>(t: Tree<N>, lo: Option<Key>, hi: Option<Key>)
    ensures SearchRange(Strip(t), lo, hi) == SearchRange(t, lo, hi)
  {
    StripLeaves(t);
    StripRangeStart(t, lo);
    if RangeStart(t, lo) <= |Leaves(t)| {
      StripFlatFrom(Leaves(t), RangeStart(t, lo));
    }
  }

  // ---- stepping down ----

  /** The position of child `i` below the position `c` of `t`. */
  function Down(c: Ctx, t: HTree, i: nat): Ctx
    requires t.Inner? && i <= |t.keys| && i < |t.kids|
  {
    Frame(t.id, t.keys[..i], t.kids[..i], t.keys[i..], t.kids[i + 1..], c)
  }

  lemma DownPlugs(c: Ctx, t: HTree, i: nat)
    requires t.Inner? && i <= |t.keys| && i < |t.kids|
    ensures Plug(Down(c, t, i), t.kids[i]) == Plug(c, t)
  {
    assert t.keys[..i] + t.keys[i..] == t.keys;
    assert t.kids[..i] + [t.kids[i]] + t.kids[i + 1..] == t.kids;
  }

  lemma DownOnPath(c: Ctx, t: HTree, k: Key)
    requires t.Inner? && |t.kids| == |t.keys| + 1 && OnPath(c, k)
    ensures OnPath(Down(c, t, ChildIndex(t.keys, k)), k)
  {
    var i := ChildIndex(t.keys, k);
    assert t.keys[..i] + t.keys[i..] == t.keys;
  }

  lemma {:induction false} LeavesNamed(t: HTree)
    ensures LeafIds(t) == Roots(Leaves(t))
    decreases t, 1
  {
    if t.Leaf? {
      assert [t][1..] == [];
    } else {
      LeavesAllNamed(t.kids);
    }
  }

  lemma {:induction false} LeavesAllNamed(ts: seq<HTree>)
    ensures LeafIdsAll(ts) == Roots(LeavesAll(ts))
    decreases ts, 0
  {
    if ts != [] {
      LeavesNamed(ts[0]);
      LeavesAllNamed(ts[1..]);
      RootsAppend(Leaves(ts[0]), LeavesAll(ts[1..]));
    }
  }

  lemma {:induction false} LeavesHeld(h: Heap, t: HTree)
    requires Rep(h, t)
    ensures RepAll(h, Leaves(t))
    decreases t, 1
  {
    if t.Leaf? {
      BPlusHeap.Alone(h, t);
    } else {
      LeavesAllHeld(h, t.kids);
    }
  }

  lemma {:induction false} LeavesAllHeld(h: Heap, ts: seq<HTree>)
    requires RepAll(h, ts)
    ensures RepAll(h, LeavesAll(ts))
    decreases ts, 0
  {
    if ts != [] {
      LeavesHeld(h, ts[0]);
      LeavesAllHeld(h, ts[1..]);
      RepAllAppend(h, Leaves(ts[0]), LeavesAll(ts[1..]));
    }
  }

  lemma {:induction false} RepAllAt(h: Heap, ts: seq<HTree>, i: nat)
    requires RepAll(h, ts) && i < |ts|
    ensures Rep(h, ts[i])
    decreases i
  {
    if i > 0 {
      RepAllAt(h, ts[1..], i - 1);
    }
  }

  lemma {:induction false} LeavesAreLeaves<N>(t: Tree<N>)
    ensures forall i | 0 <= i < |Leaves(t)| :: Leaves(t)[i].Leaf?
    decreases t, 1
  {
    if t.Inner? {
      LeavesAllAreLeaves(t.kids);
    }
  }

  lemma {:induction false} LeavesAllAreLeaves<N>(ts: seq<Tree<N>>)
    ensures forall i | 0 <= i < |LeavesAll(ts)| :: LeavesAll(ts)[i].Leaf?
    decreases ts, 0
  {
    if ts != [] {
      LeavesAreLeaves(ts[0]);
      LeavesAllAreLeaves(ts[1..]);
    }
  }

  /** The leaf at index `i`, as the nodes have it. */
  lemma LeafAt(h: Heap, t: HTree, i: nat)
    requires Rep(h, t) && i < |LeafIds(t)|
    ensures |Leaves(t)| == |LeafIds(t)| && Leaves(t)[i].Leaf? && Leaves(t)[i].id == LeafIds(t)[i]
    ensures LeafIds(t)[i] in h && h[LeafIds(t)[i]] == Cell(true, Leaves(t)[i].keys, Leaves(t)[i].vals, [])
  {
    LeavesNamed(t);
    LeavesHeld(h, t);
    LeavesAreLeaves(t);
    RepAllAt(h, Leaves(t), i);
  }

  // ---- where the descents arrive ----

  /** The descent of `search` for `k` goes through the hole. */
  ghost predicate OnLowPath(c: Ctx, k: Key) {
    c.Frame? ==> |c.lkeys| == |c.left| && |c.rkeys| == |c.right| && LowerIndex(c.lkeys + c.rkeys, k) == |c.left| && OnLowPath(c.up, k)
  }

  ghost predicate OnFirstPath(c: Ctx) {
    c.Frame? ==> c.left == [] && OnFirstPath(c.up)
  }

  lemma DownOnLowPath(c: Ctx, t: HTree, k: Key)
    requires t.Inner? && |t.kids| == |t.keys| + 1 && OnLowPath(c, k)
    ensures OnLowPath(Down(c, t, LowerIndex(t.keys, k)), k)
  {
    var i := LowerIndex(t.keys, k);
    assert t.keys[..i] + t.keys[i..] == t.keys;
  }

  lemma LeavesLeft(l: seq<HTree>, t: HTree, r: seq<HTree>)
    ensures (l + [t] + r)[|l|] == t && LeavesAll((l + [t] + r)[..|l|]) == LeavesAll(l)
    ensures |LeafIdsAll(l)| == |LeavesAll(l)|
  {
    assert (l + [t] + r)[..|l|] == l;
    LeavesAllNamed(l);
  }

  lemma {:induction false} PathFinds(c: Ctx, t: HTree, k: Key)
    requires OnPath(c, k)
    ensures FoundLeaf(Plug(c, t), k) == |CtxBefore(c)| + FoundLeaf(t, k)
    decreases c
  {
    if c.Frame? {
      LeavesLeft(c.left, t, c.right);
      PathFinds(c.up, Inner(c.id, c.lkeys + c.rkeys, c.left + [t] + c.right), k);
    }
  }

  lemma {:induction false} LowPathFinds(c: Ctx, t: HTree, k: Key)
    requires OnLowPath(c, k)
    ensures FirstLeaf(Plug(c, t), k) == |CtxBefore(c)| + FirstLeaf(t, k)
    decreases c
  {
    if c.Frame? {
      LeavesLeft(c.left, t, c.right);
      LowPathFinds(c.up, Inner(c.id, c.lkeys + c.rkeys, c.left + [t] + c.right), k);
    }
  }

  lemma {:induction false} FirstPathFirst(c: Ctx)
    requires OnFirstPath(c)
    ensures CtxBefore(c) == []
    decreases c
  {
    if c.Frame? {
      FirstPathFirst(c.up);
    }
  }

  /** The leaf in the hole is the one with as many leaves before it as the context has. */
  lemma LeafInHole(c: Ctx, t: HTree)
    requires t.Leaf?
    ensures |CtxBefore(c)| < |LeafIds(Plug(c, t))| && LeafIds(Plug(c, t))[|CtxBefore(c)|] == t.id
  {
    PlugLeaves(c, t);
  }

  /** A subtree of a well shaped tree is well shaped. */
  lemma {:induction false} PlugShape(c: Ctx, t: HTree, m: nat, d: nat) returns (e: nat)
    requires Shape(Plug(c, t), m, d)
    ensures Shape(t, m, e)
    decreases c
  {
    if c.Frame? {
      var n := Inner(c.id, c.lkeys + c.rkeys, c.left + [t] + c.right);
      e := PlugShape(c.up, n, m, d);
      assert n.kids[|c.left|] == t;
      e := e - 1;
    } else {
      e := d;
    }
  }

  // ---- walking along the leaves ----

  lemma {:induction false} ValuesAtAppend(a: seq<Entry>, b: seq<Entry>, k: Key)
    ensures ValuesAt(a + b, k) == ValuesAt(a, k) + ValuesAt(b, k)
  {
    if a == [] {
      assert a + b == b;
    } else {
      ValuesAtAppend(a[1..], b, k);
      ConsAppend(a, b);
    }
  }

  lemma ValuesAtStep(es: seq<Entry>, i: nat, k: Key)
    requires i < |es|
    ensures ValuesAt(es[..i + 1], k) == ValuesAt(es[..i], k) + if es[i].0 == k then [es[i].1] else []
  {
    assert es[..i + 1] == es[..i] + [es[i]];
    ValuesAtAppend(es[..i], [es[i]], k);
    assert [es[i]][1..] == [];
    assert ValuesAt([es[i]], k) == if es[i].0 == k then [es[i].1] else [];
  }

  /** In key order, nothing is left after a greater key. */
  lemma ValuesAtDone(es: seq<Entry>, i: nat, k: Key)
    requires i < |es| && SortedIn(es, None, None) && k < es[i].0
    ensures ValuesAt(es, k) == ValuesAt(es[..i], k)
  {
    assert es == es[..i] + es[i..];
    ValuesAtAppend(es[..i], es[i..], k);
    NoValues(es[i..], k);
  }

  lemma ValuesInStep(es: seq<Entry>, i: nat, lo: Option<Key>, hi: Option<Key>)
    requires i < |es|
    ensures ValuesIn(es[..i + 1], lo, hi) == ValuesIn(es[..i], lo, hi) + if Within(es[i].0, lo, hi) then [es[i].1] else []
  {
    assert es[..i + 1] == es[..i] + [es[i]];
    ValuesInAppend(es[..i], [es[i]], lo, hi);
    assert [es[i]][1..] == [];
    assert ValuesIn([es[i]], lo, hi) == if Within(es[i].0, lo, hi) then [es[i].1] else [];
  }

  lemma ValuesInDone(es: seq<Entry>, i: nat, lo: Option<Key>, hi: Option<Key>)
    requires i < |es| && SortedIn(es, None, None) && hi.Some? && hi.value < es[i].0
    ensures ValuesIn(es, lo, hi) == ValuesIn(es[..i], lo, hi)
  {
    assert es == es[..i] + es[i..];
    ValuesInAppend(es[..i], es[i..], lo, hi);
    ValuesInEmpty(es[i..], lo, hi);
  }

  /** Leaf `i` holds the entries from the `p`-th on, where `p` counts those of the leaves before it. */
  lemma LeafStarts<N>(ls: seq<Tree<N>>, i: nat)
    requires i < |ls|
    ensures var p := |FlatAll(ls[..i])|; var q := p + |Flat(ls[i])|;
            && q <= |FlatAll(ls)| && FlatAll(ls)[p..q] == Flat(ls[i]) && q == |FlatAll(ls[..i + 1])|
  {
    FlatAround(ls, i, []);
    FlatAround(ls[..i + 1], i, []);
    assert ls[..i + 1][..i] == ls[..i] && ls[..i + 1][i + 1..] == [];
  }

  lemma {:induction false} LeavesPaired<N>(t: Tree<N>, m: nat, d: nat)
    requires Shape(t, m, d)
    ensures forall i | 0 <= i < |Leaves(t)| :: Leaves(t)[i].Leaf? && |Leaves(t)[i].keys| == |Leaves(t)[i].vals|
    decreases t, 1
  {
    if t.Inner? {
      LeavesPairedFrom(t, m, d, 0);
      assert t.kids[0..] == t.kids;
    }
  }

  lemma {:induction false} LeavesPairedFrom<N>(t: Tree<N>, m: nat, d: nat, i: nat)
    requires Shape(t, m, d) && t.Inner? && i <= |t.kids|
    ensures forall j | 0 <= j < |LeavesAll(t.kids[i..])| ::
              LeavesAll(t.kids[i..])[j].Leaf? && |LeavesAll(t.kids[i..])[j].keys| == |LeavesAll(t.kids[i..])[j].vals|
    decreases t, 0, |t.kids| - i
  {
    if i < |t.kids| {
      LeavesPaired(t.kids[i], m, d - 1);
      LeavesPairedFrom(t, m, d, i + 1);
      assert t.kids[i..][1..] == t.kids[i + 1..];
    }
  }

  /** The leaf a walk from leaf `s` meets after `i` steps. */
  lemma WalkLeaf(h: Heap, links: map<Node, Node?>, t: HTree, m: nat, d: nat, s: nat, i: nat)
    requires Rep(h, t) && Chain(links, LeafIds(t)) && Shape(t, m, d) && s + i < |LeafIds(t)|
    ensures |Leaves(t)| == |LeafIds(t)|
    ensures var ls, ns := Leaves(t)[s..], LeafIds(t)[s..]; var n := ns[i];
            && n in h && ls[i].Leaf? && h[n] == Cell(true, ls[i].keys, ls[i].vals, []) && |ls[i].keys| == |ls[i].vals|
            && n in links && links[n] == After(ns, i)
  {
    LeafAt(h, t, s + i);
    LeavesPaired(t, m, d);
  }
}
