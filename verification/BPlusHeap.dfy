/** The tree as linked nodes. The heap is seen as a map from nodes to their contents, and a position in
    the tree as a context, so that an update of one node is an update at one place of the tree. */
module BPlusHeap {
  import opened Wrappers
  import opened Sequences
  import opened BPlusTree

  class Node {
    const order: nat
    const leaf: bool
    var keys: seq<Key>
    var vals: seq<int>
    var kids: seq<Node>
    var next: Node?

    constructor (order: nat, leaf: bool)
      ensures this.order == order && this.leaf == leaf && keys == [] && vals == [] && kids == [] && next == null
    {
      this.order, this.leaf := order, leaf;
      keys, vals, kids, next := [], [], [], null;
    }
  }

  datatype Cell = Cell(leaf: bool, keys: seq<Key>, vals: seq<int>, kids: seq<Node>)

  type Heap = map<Node, Cell>

  type HTree = Tree<Node>

  ghost function Snap(ns: set<Node>): Heap
    reads ns
  {
    map n | n in ns :: Cell(n.leaf, n.keys, n.vals, n.kids)
  }

  ghost function Links(ns: set<Node>): map<Node, Node?>
    reads ns
  {
    map n | n in ns :: n.next
  }

  // ---- the tree a heap holds ----

  function Roots(ts: seq<HTree>): (ns: seq<Node>)
    ensures |ns| == |ts| && forall i | 0 <= i < |ts| :: ns[i] == ts[i].id
  {
    if ts == [] then [] else [ts[0].id] + Roots(ts[1..])
  }

  ghost predicate Rep(h: Heap, t: HTree)
    decreases t
  {
    match t
    case Leaf(id, ks, vs) => id in h && h[id] == Cell(true, ks, vs, [])
    case Inner(id, ks, kids) => id in h && h[id] == Cell(false, ks, [], Roots(kids)) && RepAll(h, kids)
  }

  ghost predicate RepAll(h: Heap, ts: seq<HTree>)
    decreases ts
  {
    ts != [] ==> Rep(h, ts[0]) && RepAll(h, ts[1..])
  }

  ghost function Ids(t: HTree): multiset<Node> {
    match t
    case Leaf(id, _, _) => multiset{id}
    case Inner(id, _, kids) => multiset{id} + IdsAll(kids)
  }

  ghost function IdsAll(ts: seq<HTree>): multiset<Node> {
    if ts == [] then multiset{} else Ids(ts[0]) + IdsAll(ts[1..])
  }

  function LeafIds(t: HTree): seq<Node> {
    match t
    case Leaf(id, _, _) => [id]
    case Inner(_, _, kids) => LeafIdsAll(kids)
  }

  function LeafIdsAll(ts: seq<HTree>): seq<Node> {
    if ts == [] then [] else LeafIds(ts[0]) + LeafIdsAll(ts[1..])
  }

  /** No node occurs twice. */
  ghost predicate Once(ns: multiset<Node>) {
    forall n | n in ns :: ns[n] == 1
  }

  /** Each leaf links to the one after it. */
  ghost predicate Chain(links: map<Node, Node?>, ns: seq<Node>) {
    forall i | 0 <= i < |ns| :: ns[i] in links && links[ns[i]] == After(ns, i)
  }

  function After(ns: seq<Node>, i: nat): Node?
    requires i < |ns|
  {
    if i + 1 < |ns| then ns[i + 1] else null
  }

  // ---- values ----

  function Strip<N>(t: Tree<N>): VTree {
    match t
    case Leaf(_, ks, vs) => Leaf((), ks, vs)
    case Inner(_, ks, kids) => Inner((), ks, StripAll(kids))
  }

  function StripAll<N>(ts: seq<Tree<N>>): (vs: seq<VTree>)
    ensures |vs| == |ts| && forall i | 0 <= i < |ts| :: vs[i] == Strip(ts[i])
  {
    if ts == [] then [] else [Strip(ts[0])] + StripAll(ts[1..])
  }

  // ---- positions ----

  /** A tree with a hole: from the hole upwards, the nodes passed and what lies left and right. */
  datatype Ctx = Top | Frame(id: Node, lkeys: seq<Key>, left: seq<HTree>, rkeys: seq<Key>, right: seq<HTree>, up: Ctx)

  function Plug(c: Ctx, t: HTree): HTree
    decreases c
  {
    match c
    case Top => t
    case Frame(id, lk, l, rk, r, up) => Plug(up, Inner(id, lk + rk, l + [t] + r))
  }

  ghost function CtxIds(c: Ctx): multiset<Node> {
    match c
    case Top => multiset{}
    case Frame(id, _, l, _, r, up) => multiset{id} + IdsAll(l) + IdsAll(r) + CtxIds(up)
  }

  ghost predicate CtxRep(h: Heap, c: Ctx, hole: Node) {
    match c
    case Top => true
    case Frame(id, lk, l, rk, r, up) =>
      && id in h && h[id] == Cell(false, lk + rk, [], Roots(l) + [hole] + Roots(r))
      && RepAll(h, l) && RepAll(h, r) && CtxRep(h, up, id)
  }

  function CtxBefore(c: Ctx): seq<Node> {
    match c
    case Top => []
    case Frame(_, _, l, _, _, up) => CtxBefore(up) + LeafIdsAll(l)
  }

  function CtxAfter(c: Ctx): seq<Node> {
    match c
    case Top => []
    case Frame(_, _, _, _, r, up) => LeafIdsAll(r) + CtxAfter(up)
  }

  /** The descent for `k` goes through the hole. */
  ghost predicate OnPath(c: Ctx, k: Key) {
    c.Frame? ==> |c.lkeys| == |c.left| && |c.rkeys| == |c.right| && ChildIndex(c.lkeys + c.rkeys, k) == |c.left| && OnPath(c.up, k)
  }

  // ---- lists of trees ----

  lemma {:induction false} IdsAppend(a: seq<HTree>, b: seq<HTree>)
    ensures IdsAll(a + b) == IdsAll(a) + IdsAll(b)
  {
    if a == [] {
      assert a + b == b;
    } else {
      ConsAppend(a, b);
      IdsAppend(a[1..], b);
    }
  }

  lemma {:induction false} LeafIdsAppend(a: seq<HTree>, b: seq<HTree>)
    ensures LeafIdsAll(a + b) == LeafIdsAll(a) + LeafIdsAll(b)
  {
    if a == [] {
      assert a + b == b;
    } else {
      ConsAppend(a, b);
      LeafIdsAppend(a[1..], b);
      Assoc(LeafIds(a[0]), LeafIdsAll(a[1..]), LeafIdsAll(b));
    }
  }

  lemma Assoc<T>(a: seq<T>, b: seq<T>, c: seq<T>)
    ensures a + (b + c) == (a + b) + c
  {
  }

  lemma StripAppend(a: seq<HTree>, b: seq<HTree>)
    ensures StripAll(a + b) == StripAll(a) + StripAll(b)
  {
  }

  lemma RootsAppend(a: seq<HTree>, b: seq<HTree>)
    ensures Roots(a + b) == Roots(a) + Roots(b)
  {
  }

  lemma Append(a: seq<HTree>, b: seq<HTree>)
    ensures IdsAll(a + b) == IdsAll(a) + IdsAll(b)
    ensures LeafIdsAll(a + b) == LeafIdsAll(a) + LeafIdsAll(b)
    ensures StripAll(a + b) == StripAll(a) + StripAll(b)
    ensures Roots(a + b) == Roots(a) + Roots(b)
  {
    IdsAppend(a, b);
    LeafIdsAppend(a, b);
    StripAppend(a, b);
    RootsAppend(a, b);
  }

  lemma {:induction false} RepAllAppend(h: Heap, a: seq<HTree>, b: seq<HTree>)
    ensures RepAll(h, a + b) <==> RepAll(h, a) && RepAll(h, b)
  {
    if a == [] {
      assert a + b == b;
    } else {
      assert (a + b)[0] == a[0] && (a + b)[1..] == a[1..] + b;
      RepAllAppend(h, a[1..], b);
    }
  }

  lemma Alone(h: Heap, t: HTree)
    ensures IdsAll([t]) == Ids(t) && LeafIdsAll([t]) == LeafIds(t) && Roots([t]) == [t.id]
    ensures RepAll(h, [t]) <==> Rep(h, t)
    ensures StripAll([t]) == [Strip(t)]
  {
    assert [t][1..] == [];
  }

  lemma Amid(h: Heap, l: seq<HTree>, t: HTree, r: seq<HTree>)
    ensures IdsAll(l + [t] + r) == IdsAll(l) + Ids(t) + IdsAll(r)
    ensures LeafIdsAll(l + [t] + r) == LeafIdsAll(l) + LeafIds(t) + LeafIdsAll(r)
    ensures StripAll(l + [t] + r) == StripAll(l) + [Strip(t)] + StripAll(r)
    ensures Roots(l + [t] + r) == Roots(l) + [t.id] + Roots(r)
    ensures RepAll(h, l + [t] + r) <==> RepAll(h, l) && Rep(h, t) && RepAll(h, r)
  {
    Append(l + [t], r);
    Append(l, [t]);
    Alone(h, t);
    RepAllAppend(h, l + [t], r);
    RepAllAppend(h, l, [t]);
  }

  // ---- plugging ----

  lemma {:induction false} PlugIds(c: Ctx, t: HTree)
    ensures Ids(Plug(c, t)) == CtxIds(c) + Ids(t)
    decreases c
  {
    if c.Frame? {
      Amid(map[], c.left, t, c.right);
      PlugIds(c.up, Inner(c.id, c.lkeys + c.rkeys, c.left + [t] + c.right));
    }
  }

  lemma {:induction false} PlugRep(h: Heap, c: Ctx, t: HTree)
    ensures Rep(h, Plug(c, t)) <==> CtxRep(h, c, t.id) && Rep(h, t)
    decreases c
  {
    if c.Frame? {
      Amid(h, c.left, t, c.right);
      PlugRep(h, c.up, Inner(c.id, c.lkeys + c.rkeys, c.left + [t] + c.right));
    }
  }

  lemma Nest<T>(a: seq<T>, b: seq<T>, c: seq<T>, d: seq<T>, e: seq<T>)
    ensures a + (b + c + d) + e == (a + b) + c + (d + e)
  {
  }

  lemma {:induction false} PlugLeaves(c: Ctx, t: HTree)
    ensures LeafIds(Plug(c, t)) == CtxBefore(c) + LeafIds(t) + CtxAfter(c)
    decreases c
  {
    if c.Frame? {
      Amid(map[], c.left, t, c.right);
      PlugLeaves(c.up, Inner(c.id, c.lkeys + c.rkeys, c.left + [t] + c.right));
      Nest(CtxBefore(c.up), LeafIdsAll(c.left), LeafIds(t), LeafIdsAll(c.right), CtxAfter(c.up));
    }
  }

  // ---- framing ----

  lemma {:induction false} RepFrame(h: Heap, h': Heap, t: HTree)
    requires Rep(h, t) && forall n | n in Ids(t) :: n in h && n in h' && h'[n] == h[n]
    ensures Rep(h', t)
    decreases t, 1
  {
    if t.Inner? {
      RepAllFrame(h, h', t.kids);
    }
  }

  lemma {:induction false} RepAllFrame(h: Heap, h': Heap, ts: seq<HTree>)
    requires RepAll(h, ts) && forall n | n in IdsAll(ts) :: n in h && n in h' && h'[n] == h[n]
    ensures RepAll(h', ts)
    decreases ts, 0
  {
    if ts != [] {
      RepFrame(h, h', ts[0]);
      RepAllFrame(h, h', ts[1..]);
    }
  }

  lemma {:induction false} CtxFrame(h: Heap, h': Heap, c: Ctx, hole: Node)
    requires CtxRep(h, c, hole) && forall n | n in CtxIds(c) :: n in h && n in h' && h'[n] == h[n]
    ensures CtxRep(h', c, hole)
    decreases c
  {
    if c.Frame? {
      RepAllFrame(h, h', c.left);
      RepAllFrame(h, h', c.right);
      CtxFrame(h, h', c.up, c.id);
    }
  }

  lemma {:induction false} RepIds(h: Heap, t: HTree)
    requires Rep(h, t)
    ensures forall n | n in Ids(t) :: n in h
    decreases t, 1
  {
    if t.Inner? {
      RepAllIds(h, t.kids);
    }
  }

  lemma {:induction false} RepAllIds(h: Heap, ts: seq<HTree>)
    requires RepAll(h, ts)
    ensures forall n | n in IdsAll(ts) :: n in h
    decreases ts, 0
  {
    if ts != [] {
      RepIds(h, ts[0]);
      RepAllIds(h, ts[1..]);
    }
  }

  lemma {:induction false} LeafIdsAreIds(t: HTree)
    ensures forall i | 0 <= i < |LeafIds(t)| :: LeafIds(t)[i] in Ids(t)
    decreases t, 1
  {
    if t.Inner? {
      LeafIdsAllAreIds(t.kids);
    }
  }

  lemma {:induction false} LeafIdsAllAreIds(ts: seq<HTree>)
    ensures forall i | 0 <= i < |LeafIdsAll(ts)| :: LeafIdsAll(ts)[i] in IdsAll(ts)
    decreases ts, 0
  {
    if ts != [] {
      LeafIdsAreIds(ts[0]);
      LeafIdsAllAreIds(ts[1..]);
    }
  }

  lemma {:induction false} LeafIdsOnce(t: HTree)
    ensures multiset(LeafIds(t)) <= Ids(t)
    decreases t, 1
  {
    if t.Inner? {
      LeafIdsAllOnce(t.kids);
    }
  }

  lemma {:induction false} LeafIdsAllOnce(ts: seq<HTree>)
    ensures multiset(LeafIdsAll(ts)) <= IdsAll(ts)
    decreases ts, 0
  {
    if ts != [] {
      LeafIdsOnce(ts[0]);
      LeafIdsAllOnce(ts[1..]);
    }
  }

  // ---- `_find_parent` ----

  function ParentOf(t: HTree, x: Node): Option<Node>
    decreases t, 1
  {
    match t
    case Leaf(_, _, _) => None
    case Inner(id, _, kids) => ParentAmong(id, kids, x)
  }

  function ParentAmong(id: Node, ts: seq<HTree>, x: Node): Option<Node>
    decreases ts, 0
  {
    if ts == [] then None
    else if ts[0].id == x then Some(id)
    else
      var p := ParentOf(ts[0], x);
      if p.Some? then p else ParentAmong(id, ts[1..], x)
  }

  lemma {:induction false} NoParent(t: HTree, x: Node)
    requires Ids(t)[x] == if t.id == x then 1 else 0
    ensures ParentOf(t, x) == None
    decreases t, 1
  {
    if t.Inner? {
      NoParentAmong(t.id, t.kids, x);
    }
  }

  lemma {:induction false} NoParentAmong(id: Node, ts: seq<HTree>, x: Node)
    requires x !in IdsAll(ts)
    ensures ParentAmong(id, ts, x) == None
    decreases ts, 0
  {
    if ts != [] {
      assert ts[0].id in Ids(ts[0]);
      NoParent(ts[0], x);
      NoParentAmong(id, ts[1..], x);
    }
  }

  lemma {:induction false} ParentAmid(id: Node, l: seq<HTree>, t: HTree, r: seq<HTree>, x: Node)
    requires x !in IdsAll(l)
    ensures ParentAmong(id, l + [t] + r, x) == ParentAmong(id, [t] + r, x)
    decreases |l|
  {
    if l == [] {
      assert l + [t] + r == [t] + r;
    } else {
      assert (l + [t] + r)[0] == l[0] && (l + [t] + r)[1..] == l[1..] + [t] + r;
      assert l[0].id in Ids(l[0]);
      NoParent(l[0], x);
      ParentAmid(id, l[1..], t, r, x);
    }
  }

  lemma {:induction false} PlugParent(c: Ctx, t: HTree, x: Node)
    requires ParentOf(t, x).Some? && x !in CtxIds(c) && t.id != x
    ensures ParentOf(Plug(c, t), x) == ParentOf(t, x)
    decreases c
  {
    if c.Frame? {
      ParentAmid(c.id, c.left, t, c.right, x);
      assert ([t] + c.right)[0] == t;
      PlugParent(c.up, Inner(c.id, c.lkeys + c.rkeys, c.left + [t] + c.right), x);
    }
  }

  /** The search for a node's parent finds the node above the hole, or nothing at the root. */
  lemma FindsParent(c: Ctx, t: HTree)
    requires Once(CtxIds(c) + Ids(t))
    ensures ParentOf(Plug(c, t), t.id) == if c.Top? then None else Some(c.id)
  {
    var x := t.id;
    assert x in Ids(t);
    assert (CtxIds(c) + Ids(t))[x] == 1;
    if c.Top? {
      NoParent(t, x);
    } else {
      ParentAmid(c.id, c.left, t, c.right, x);
      assert ([t] + c.right)[0] == t;
      PlugParent(c.up, Inner(c.id, c.lkeys + c.rkeys, c.left + [t] + c.right), x);
    }
  }
}
