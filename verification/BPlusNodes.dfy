/** `BPlusTreeIndex`: the linked nodes and the operations that change them in place. */
module BPlusNodes {
  import opened Wrappers
  import opened BPlusTree
  import opened BPlusOrder
  import BPlusExact
  import BPlusIndex
  import opened BPlusHeap
  import opened BPlusSteps
  import opened BPlusView

  function OrNull(o: Option<Node>): Node? {
    if o.Some? then o.value else null
  }

  lemma ChildIndexIs(ks: seq<Key>, k: Key, i: nat)
    requires i <= |ks| && (forall j | 0 <= j < i :: ks[j] <= k) && (i < |ks| ==> k < ks[i])
    ensures ChildIndex(ks, k) == i
  {
  }

  lemma LowerIndexIs(ks: seq<Key>, k: Key, i: nat)
    requires i <= |ks| && (forall j | 0 <= j < i :: ks[j] < k) && (i < |ks| ==> k <= ks[i])
    ensures LowerIndex(ks, k) == i
  {
  }

  /** Child `i` of an inner node, as the nodes have it. */
  lemma ChildHeld(h: Heap, c: Ctx, t: HTree, i: nat)
    requires Rep(h, Plug(c, t)) && t.Inner? && i < |t.kids| && i <= |t.keys|
    ensures t.id in h && h[t.id] == Cell(false, t.keys, [], Roots(t.kids))
    ensures Plug(Down(c, t, i), t.kids[i]) == Plug(c, t)
  {
    PlugRep(h, c, t);
    DownPlugs(c, t, i);
  }

  class BPlusTreeIndex {
    var root: Node
    const order: nat
    ghost var repr: set<Node>
    ghost var shape: HTree

    ghost predicate Valid()
      reads this, repr
    {
      && order >= 2 && root == shape.id && Holds(Snap(repr), Links(repr), shape)
      && (exists d: nat :: Shape(shape, order, d)) && Ordered(shape, None, None)
    }

    /** The index as a value. */
    ghost function Tree(): VTree
      reads this
    {
      Strip(shape)
    }

    constructor (order: nat)
      requires order >= 2
      ensures Valid() && fresh(repr) && this.order == order && Tree() == EMPTY
      ensures forall n | n in repr :: n.order == order
    {
      var leaf := new Node(order, true);
      root := leaf;
      this.order := order;
      repr := {leaf};
      shape := Leaf(leaf, [], []);
      new;
      assert Shape(shape, order, 0);
    }

    // ---- reading ----

    method FindLeaf(node: Node, k: Key, ghost c: Ctx, ghost t: HTree) returns (leaf: Node, ghost lc: Ctx, ghost lt: HTree)
      requires Valid() && t.id == node && Plug(c, t) == shape && OnPath(c, k)
      ensures lt.Leaf? && lt.id == leaf && Plug(lc, lt) == shape && OnPath(lc, k)
      decreases t
    {
      hide Once, Chain, Ordered, Ids, CtxIds, CtxRep;
      ghost var d: nat :| Shape(shape, order, d);
      ghost var e := PlugShape(c, t, order, d);
      PlugRep(Snap(repr), c, t);
      if node.leaf {
        return node, c, t;
      }
      var i := 0;
      while i < |node.keys| && node.keys[i] <= k
        invariant i <= |node.keys| && forall j | 0 <= j < i :: node.keys[j] <= k
      {
        i := i + 1;
      }
      ChildIndexIs(t.keys, k, i);
      ChildHeld(Snap(repr), c, t, i);
      DownOnPath(c, t, k);
      leaf, lc, lt := FindLeaf(node.kids[i], k, Down(c, t, i), t.kids[i]);
    }

    /** The leaf from which `search` walks. */
    method FindFirst(k: Key) returns (leaf: Node)
      requires Valid()
      ensures FirstLeaf(shape, k) < |LeafIds(shape)| && LeafIds(shape)[FirstLeaf(shape, k)] == leaf
    {
      hide FlatAll, StripAll, Chain, Once, IdsAll, LeafIdsAll, CtxRep, CtxIds, CtxBefore, CtxAfter;
      leaf := root;
      ghost var d: nat :| Shape(shape, order, d);
      ghost var c, t := Top, shape;
      while !leaf.leaf
        invariant leaf in repr && t.id == leaf && Plug(c, t) == shape && OnLowPath(c, k)
        decreases t
      {
        ghost var e := PlugShape(c, t, order, d);
        PlugRep(Snap(repr), c, t);
        var i := 0;
        while i < |leaf.keys| && leaf.keys[i] < k
          invariant i <= |leaf.keys| && forall j | 0 <= j < i :: leaf.keys[j] < k
        {
          i := i + 1;
        }
        LowerIndexIs(t.keys, k, i);
        ChildHeld(Snap(repr), c, t, i);
        DownOnLowPath(c, t, k);
        leaf := leaf.kids[i];
        c, t := Down(c, t, i), t.kids[i];
        PlugRep(Snap(repr), c, t);
      }
      PlugRep(Snap(repr), c, t);
      LowPathFinds(c, t, k);
      LeafInHole(c, t);
    }

    method FindLeftmost() returns (leaf: Node)
      requires Valid()
      ensures |LeafIds(shape)| > 0 && LeafIds(shape)[0] == leaf
    {
      leaf := root;
      ghost var d: nat :| Shape(shape, order, d);
      ghost var c, t := Top, shape;
      while !leaf.leaf
        invariant leaf in repr && t.id == leaf && Plug(c, t) == shape && OnFirstPath(c)
        decreases t
      {
        ghost var e := PlugShape(c, t, order, d);
        PlugRep(Snap(repr), c, t);
        ChildHeld(Snap(repr), c, t, 0);
        leaf := leaf.kids[0];
        c, t := Down(c, t, 0), t.kids[0];
        PlugRep(Snap(repr), c, t);
      }
      PlugRep(Snap(repr), c, t);
      FirstPathFirst(c);
      LeafInHole(c, t);
    }

    /** What a walk from leaf `s` passes. */
    lemma RowFrom(s: nat)
      requires Valid() && s < |LeafIds(shape)|
      ensures |Leaves(shape)| == |LeafIds(shape)| && Row(LeafIds(shape)[s..], Leaves(shape)[s..])
      ensures SortedIn(FlatAll(Leaves(shape)[s..]), None, None)
    {
      LeavesNamed(shape);
      var d: nat :| Shape(shape, order, d);
      SortedFrom(shape, s);
      var ls, ns := Leaves(shape)[s..], LeafIds(shape)[s..];
      forall i | 0 <= i < |ns| ensures Standing(ns, ls, i) {
        WalkLeaf(Snap(repr), Links(repr), shape, order, d, s, i);
      }
    }

    /** Whether the leaf the descent finds has the key. */
    method KeyExists(k: Key) returns (b: bool)
      requires Valid()
      ensures FoundLeaf(shape, k) < |Leaves(shape)| && b == BPlusIndex.Has(Flat(Leaves(shape)[FoundLeaf(shape, k)]), k)
    {
      ghost var d: nat :| Shape(shape, order, d);
      var leaf, c, t := FindLeaf(root, k, Top, shape);
      FoundAt(Snap(repr), Links(repr), shape, order, d, c, t, k);
      b := KeyIn(leaf.keys, k);
    }

    method AllValues(k: Key) returns (results: seq<int>)
      requires Valid()
      ensures results == BPlusIndex.ValuesAt(Flat(shape), k)
    {
      var start := FindFirst(k);
      RowFrom(FirstLeaf(shape, k));
      results := WalkAt(start, k, LeafIds(shape)[FirstLeaf(shape, k)..], Leaves(shape)[FirstLeaf(shape, k)..]);
      FromFirst(shape, k);
    }

    method Search(k: Key) returns (r: Option<seq<int>>)
      requires Valid()
      ensures r == BPlusIndex.Search(Tree(), k)
    {
      StripSearch(shape, k);
      var exists_ := KeyExists(k);
      if !exists_ {
        return None;
      }
      var results := AllValues(k);
      BPlusIndex.LeafHasOnlyWhatTreeHas(shape, k);
      BPlusIndex.HasValues(Flat(shape), k);
      return if results == [] then None else Some(results);
    }

    method SearchRange(lo: Option<Key>, hi: Option<Key>) returns (results: seq<int>)
      requires Valid()
      ensures results == BPlusIndex.SearchRange(Tree(), lo, hi)
    {
      var start;
      if lo.Some? {
        start := FindStart(lo.value);
      } else {
        start := FindLeftmost();
      }
      ghost var s := BPlusIndex.RangeStart(shape, lo);
      RowFrom(s);
      StripSearchRange(shape, lo, hi);
      results := WalkIn(start, lo, hi, LeafIds(shape)[s..], Leaves(shape)[s..]);
    }

    /** The leaf the descent finds, by its place among the leaves. */
    method FindStart(k: Key) returns (leaf: Node)
      requires Valid()
      ensures FoundLeaf(shape, k) < |LeafIds(shape)| && LeafIds(shape)[FoundLeaf(shape, k)] == leaf
    {
      ghost var c, t;
      leaf, c, t := FindLeaf(root, k, Top, shape);
      PathFinds(c, t, k);
      LeafInHole(c, t);
    }

    // ---- finding a node's parent ----

    method FindParent(current: Node, child: Node, ghost t: HTree) returns (p: Node?)
      requires Rep(Snap(repr), t) && t.id == current
      ensures p == OrNull(ParentOf(t, child))
      decreases t
    {
      if current.leaf {
        return null;
      }
      var i := 0;
      while i < |current.kids|
        invariant i <= |current.kids| && RepAll(Snap(repr), t.kids[i..])
        invariant ParentOf(t, child) == ParentAmong(t.id, t.kids[i..], child)
      {
        var c := current.kids[i];
        assert t.kids[i..][0] == t.kids[i] && t.kids[i..][1..] == t.kids[i + 1..];
        if c == child {
          return current;
        }
        if !c.leaf {
          p := FindParent(c, child, t.kids[i]);
          if p != null {
            return;
          }
        }
        i := i + 1;
      }
      p := null;
    }

    // ---- insertion ----

    /** A new root over the two halves of the old one. */
    method GrowRoot(left: Node, key: Key, right: Node, ghost l: HTree, ghost r: HTree)
      requires order >= 2 && l.id == left && r.id == right && Pending(Snap(repr), Links(repr), Top, l, r)
      modifies this
      ensures fresh(repr - old(repr)) && old(repr) <= repr
      ensures forall n | n in repr && n !in old(repr) :: n.order == order
      ensures root == shape.id && Holds(Snap(repr), Links(repr), shape)
      ensures Strip(shape) == Rooted(Rise(Top, Two(Strip(l), key, Strip(r)), order))
    {
      hide *;
      ghost var h, links := Snap(repr), Links(repr);
      var newRoot := NewInner(order, [key], [left, right], repr);
      root, repr, shape := newRoot, repr + {newRoot}, Inner(newRoot, [key], [l, r]);
      NewRoot(h, Snap(repr), links, Links(repr), l, key, r, newRoot);
      RiseAtRoot(newRoot, l, key, r, order);
    }

    method InsertIntoParent(node: Node, key: Key, newNode: Node, ghost c: Ctx, ghost l: HTree, ghost r: HTree)
      requires order >= 2 && l.id == node && r.id == newNode && Fits(c) && root == Plug(c, l).id
      requires Pending(Snap(repr), Links(repr), c, l, r)
      modifies this, repr
      ensures fresh(repr - old(repr)) && old(repr) <= repr
      ensures forall n | n in repr && n !in old(repr) :: n.order == order
      ensures root == shape.id && Holds(Snap(repr), Links(repr), shape)
      ensures Strip(shape) == Rooted(Rise(c, Two(Strip(l), key, Strip(r)), order))
      decreases c, 0
    {
      hide *;
      ghost var h, links := Snap(repr), Links(repr);
      ParentHeld(h, links, c, l, r);
      var parent := FindParent(root, node, Plug(c, l));
      ParentOrNull(Plug(c, l), node, if c.Top? then None else Some(c.id));
      if parent == null {
        GrowRoot(node, key, newNode, l, r);
        return;
      }
      NodeSeen(repr, parent);
      IndexAmid(Roots(c.left), node, Roots(c.right));
      FitsUp(c);
      var idx := IndexIn(parent.kids, node);
      Adopt(parent, idx, key, newNode, repr);
      ParentTakes(h, Snap(repr), links, c, l, key, r, order);
      ghost var t := Taken(c, l, key, r);
      TakenKeys(c, l, key, r);
      NodeSeen(repr, parent);
      if |parent.keys| > order - 1 {
        SplitInternal(parent, c.up, t);
      } else {
        shape := Plug(c.up, t);
        NoSplit(c.up, t, order);
      }
    }

    method SplitInternal(node: Node, ghost c: Ctx, ghost t: HTree)
      requires order >= 2 && t.Inner? && t.id == node && |t.kids| == |t.keys| + 1 && |t.keys| > order - 1
      requires Fits(c) && root == Plug(c, t).id && Holds(Snap(repr), Links(repr), Plug(c, t))
      modifies this, repr
      ensures fresh(repr - old(repr)) && old(repr) <= repr
      ensures forall n | n in repr && n !in old(repr) :: n.order == order
      ensures root == shape.id && Holds(Snap(repr), Links(repr), shape)
      ensures Strip(shape) == Rooted(Rise(c, SplitInner(t.keys, StripAll(t.kids), order), order))
      decreases c, 1
    {
      hide *;
      ghost var h, links := Snap(repr), Links(repr);
      InnerSeen(h, links, c, t);
      NodeSeen(repr, node);
      var mid := |node.keys| / 2;
      var upKey := node.keys[mid];
      var newInternal := HalveInner(order, node, mid, repr);
      repr := repr + {newInternal};
      InnerHalved(h, Snap(repr), links, Links(repr), c, t, newInternal, order);
      ghost var l, r := LowerInner(t, mid), UpperInner(t, mid, newInternal);
      HalvesNamed(t, mid, newInternal);
      if node == root {
        GrowRoot(node, upKey, newInternal, l, r);
      } else {
        InsertIntoParent(node, upKey, newInternal, c, l, r);
      }
    }

    method SplitLeaf(node: Node, ghost c: Ctx, ghost t: HTree)
      requires order >= 2 && t.Leaf? && t.id == node && |t.keys| == |t.vals| && |t.keys| > order - 1
      requires Fits(c) && root == Plug(c, t).id && Holds(Snap(repr), Links(repr), Plug(c, t))
      modifies this, repr
      ensures fresh(repr - old(repr)) && old(repr) <= repr
      ensures forall n | n in repr && n !in old(repr) :: n.order == order
      ensures root == shape.id && Holds(Snap(repr), Links(repr), shape)
      ensures Strip(shape) == Rooted(Rise(c, BPlusTree.SplitLeaf(t.keys, t.vals, order), order))
    {
      hide *;
      ghost var h, links := Snap(repr), Links(repr);
      LeafSeen(h, links, c, t);
      NodeSeen(repr, node);
      var mid := |node.keys| / 2;
      var newLeaf := HalveLeaf(order, node, mid, repr);
      repr := repr + {newLeaf};
      LeafHalved(h, Snap(repr), links, Links(repr), c, t, newLeaf, order);
      ghost var l, r := LowerLeaf(t, mid), UpperLeaf(t, mid, newLeaf);
      LeafHalvesNamed(t, mid, newLeaf);
      NodeSeen(repr, newLeaf);
      if node == root {
        GrowRoot(node, newLeaf.keys[0], newLeaf, l, r);
      } else {
        InsertIntoParent(node, newLeaf.keys[0], newLeaf, c, l, r);
      }
    }

    method Insert(key: Key, value: int)
      requires Valid()
      modifies this, repr
      ensures Valid() && fresh(repr - old(repr)) && old(repr) <= repr
      ensures forall n | n in repr && n !in old(repr) :: n.order == order
      ensures Tree() == BPlusTree.Insert(old(Tree()), key, value, order)
    {
      ghost var was := shape;
      var node, c, t := FindLeaf(root, key, Top, shape);
      LeafPaired(shape, c, t, order);
      InsertAt(node, key, value, c, t);
      RiseIsGrow(c, t, key, value, order);
      StaysValid(shape, was, key, value, order);
    }

    /** The part of `Insert` after the descent. */
    method InsertAt(node: Node, key: Key, value: int, ghost c: Ctx, ghost t: HTree)
      requires order >= 2 && root == Plug(c, t).id && Holds(Snap(repr), Links(repr), Plug(c, t))
      requires t.Leaf? && t.id == node && |t.keys| == |t.vals| && OnPath(c, key)
      modifies this, repr
      ensures fresh(repr - old(repr)) && old(repr) <= repr
      ensures forall n | n in repr && n !in old(repr) :: n.order == order
      ensures root == shape.id && Holds(Snap(repr), Links(repr), shape)
      ensures Strip(shape) == Rooted(Rise(c, Grow(Strip(t), key, value, order), order))
    {
      hide *;
      ghost var h, links := Snap(repr), Links(repr);
      LeafSeen(h, links, c, t);
      NodeSeen(repr, node);
      PathFits(c, key);
      var index := 0;
      while index < |node.keys| && node.keys[index] < key
        invariant index <= |node.keys| && forall j | 0 <= j < index :: node.keys[j] < key
      {
        index := index + 1;
      }
      LowerIndexIs(t.keys, key, index);
      PutIn(node, index, key, value, repr);
      LeafGrew(h, Snap(repr), links, c, t, key, value, index);
      NodeSeen(repr, node);
      ghost var t' := Leaf(node, node.keys, node.vals);
      GrowLeaf(t, t', key, value, order);
      if |node.keys| > order - 1 {
        SplitLeaf(node, c, t');
      } else {
        shape := Plug(c, t');
        NoLeafSplit(c, t', order);
      }
    }

    // ---- deletion ----

    method Delete(key: Key, value: int)
      requires Valid()
      modifies this, repr
      ensures Valid() && repr == old(repr)
      ensures Tree() == BPlusTree.Delete(old(Tree()), key, value)
    {
      ghost var was := shape;
      var leaf, c, t := FindLeaf(root, key, Top, shape);
      LeafPaired(shape, c, t, order);
      DeleteAt(leaf, key, value, c, t);
      DeleteBelow(c, t, key, value);
      StaysValidLess(was, key, value, order);
    }

    /** The part of `Delete` after the descent. */
    method DeleteAt(leaf: Node, key: Key, value: int, ghost c: Ctx, ghost t: HTree)
      requires root == Plug(c, t).id && Holds(Snap(repr), Links(repr), Plug(c, t))
      requires t.Leaf? && t.id == leaf && |t.keys| == |t.vals|
      modifies this, repr
      ensures repr == old(repr) && root == shape.id && Holds(Snap(repr), Links(repr), shape)
      ensures shape == Plug(c, BPlusTree.Delete(t, key, value))
    {
      hide *;
      ghost var h, links := Snap(repr), Links(repr);
      LeafSeen(h, links, c, t);
      NodeSeen(repr, leaf);
      var i := 0;
      while i < |leaf.keys| && !(leaf.keys[i] == key && leaf.vals[i] == value)
        invariant i <= |leaf.keys| && forall j | 0 <= j < i :: leaf.keys[j] != key || leaf.vals[j] != value
      {
        i := i + 1;
      }
      DeleteFromLeaf(t, key, value, i);
      if i < |leaf.keys| {
        TakeOut(leaf, i, repr);
        LeafShrank(h, Snap(repr), links, c, t, i);
      }
      shape := Plug(c, BPlusTree.Delete(t, key, value));
    }
  }

  // ---- rebuilding the chain ----

  ghost predicate Distinct(ns: seq<Node>) {
    forall i, j | 0 <= i < j < |ns| :: ns[i] != ns[j]
  }

  /** Each node links to the next; the last keeps its link, and so does every other node. */
  method LinkUp(leaves: seq<Node>)
    requires Distinct(leaves)
    modifies leaves`next
    ensures forall i | 0 <= i < |leaves| - 1 :: leaves[i].next == leaves[i + 1]
    ensures leaves != [] ==> leaves[|leaves| - 1].next == old(leaves[|leaves| - 1].next)
  {
    var i := 0;
    while i < |leaves| - 1
      invariant i == 0 || 0 <= i < |leaves|
      invariant forall j | 0 <= j < i :: leaves[j].next == leaves[j + 1]
      invariant forall j | i <= j < |leaves| :: leaves[j].next == old(leaves[j].next)
    {
      leaves[i].next := leaves[i + 1];
      i := i + 1;
    }
  }

  /** `_rebuild_leaf_links`: the leaves in order, each but the last linked to the next. */
  lemma LeafIdsOf(t: HTree)
    ensures LeafIds(t) == (if t.Leaf? then [t.id] else LeafIdsAll(t.kids)) && LeafIdsAll([]) == []
  {
  }

  method RebuildLeafLinks(node: Node, ghost t: HTree, ghost ns: set<Node>) returns (leaves: seq<Node>)
    requires Rep(Snap(ns), t) && t.id == node && Once(Ids(t))
    modifies ns`next
    ensures leaves == LeafIds(t) && Snap(ns) == old(Snap(ns))
    ensures forall i | 0 <= i < |leaves| - 1 :: leaves[i].next == leaves[i + 1]
    ensures forall i | 0 <= i < |leaves| :: leaves[i] in ns
    ensures leaves != [] ==> leaves[|leaves| - 1].next == old(leaves[|leaves| - 1].next)
    ensures forall n | n in ns && n !in leaves :: n.next == old(n.next)
    decreases t
  {
    hide Once, Ids, IdsAll, LeafIds, LeafIdsAll, RepAll;
    LeafIdsOf(t);
    if node.leaf {
      return [node];
    }
    assert t.kids[..0] == [];
    leaves := [];
    var i := 0;
    while i < |node.kids|
      invariant i <= |node.kids| && leaves == LeafIdsAll(t.kids[..i]) && Snap(ns) == old(Snap(ns))
      invariant forall i | 0 <= i < |leaves| :: leaves[i] in ns
      invariant leaves != [] ==> leaves[|leaves| - 1].next == old(leaves[|leaves| - 1].next)
      invariant forall n | n in ns && n !in leaves :: n.next == old(n.next)
    {
      KidApart(Snap(ns), t, i);
      var more := RebuildLeafLinks(node.kids[i], t.kids[i], ns);
      leaves := leaves + more;
      i := i + 1;
    }
    assert t.kids[..i] == t.kids;
    LeavesDistinct(Snap(ns), t);
    LinkUp(leaves);
  }

  // ---- single nodes ----

  method NewInner(order: nat, keys: seq<Key>, kids: seq<Node>, ghost ns: set<Node>) returns (n: Node)
    ensures n.order == order && fresh(n) && n !in old(Snap(ns)) && n in Snap(ns + {n})
    ensures Extends(old(Snap(ns)), Snap(ns + {n}), {}) && Relinked(old(Links(ns)), Links(ns + {n}), {n})
    ensures Snap(ns + {n})[n] == Cell(false, keys, [], kids)
  {
    n := new Node(order, false);
    n.keys := keys;
    n.kids := kids;
  }

  /** The upper half of an inner node, but for the middle key, moves to a new node. */
  method HalveInner(order: nat, node: Node, mid: nat, ghost ns: set<Node>) returns (n: Node)
    requires node in ns && !node.leaf && mid < |node.keys| && mid < |node.kids|
    modifies node
    ensures n.order == order && fresh(n) && n !in old(Snap(ns)) && n in Snap(ns + {n}) && node in Snap(ns + {n})
    ensures Extends(old(Snap(ns)), Snap(ns + {n}), {node}) && Relinked(old(Links(ns)), Links(ns + {n}), {n})
    ensures Snap(ns + {n})[node] == Cell(false, old(node.keys)[..mid], old(node.vals), old(node.kids)[..mid + 1])
    ensures Snap(ns + {n})[n] == Cell(false, old(node.keys)[mid + 1..], [], old(node.kids)[mid + 1..])
  {
    n := new Node(order, false);
    n.keys := node.keys[mid + 1..];
    n.kids := node.kids[mid + 1..];
    node.keys := node.keys[..mid];
    node.kids := node.kids[..mid + 1];
  }

  /** The upper half of a leaf moves to a new leaf, linked in after it. */
  method HalveLeaf(order: nat, node: Node, mid: nat, ghost ns: set<Node>) returns (n: Node)
    requires node in ns && node.leaf && mid <= |node.keys| == |node.vals|
    modifies node
    ensures n.order == order && fresh(n) && n !in old(Snap(ns)) && n in Snap(ns + {n}) && node in Snap(ns + {n})
    ensures n in Links(ns + {n}) && node in Links(ns + {n}) && node in old(Links(ns))
    ensures Extends(old(Snap(ns)), Snap(ns + {n}), {node}) && Relinked(old(Links(ns)), Links(ns + {n}), {node, n})
    ensures Snap(ns + {n})[node] == Cell(true, old(node.keys)[..mid], old(node.vals)[..mid], old(node.kids))
    ensures Snap(ns + {n})[n] == Cell(true, old(node.keys)[mid..], old(node.vals)[mid..], [])
    ensures Links(ns + {n})[node] == n && Links(ns + {n})[n] == old(Links(ns))[node]
  {
    n := new Node(order, true);
    n.keys := node.keys[mid..];
    n.vals := node.vals[mid..];
    node.keys := node.keys[..mid];
    node.vals := node.vals[..mid];
    n.next := node.next;
    node.next := n;
  }

  method Adopt(parent: Node, idx: nat, key: Key, newNode: Node, ghost ns: set<Node>)
    requires parent in ns && idx <= |parent.keys| && idx < |parent.kids|
    modifies parent
    ensures parent in Snap(ns) && Extends(old(Snap(ns)), Snap(ns), {parent}) && Links(ns) == old(Links(ns))
    ensures Snap(ns)[parent] == Cell(parent.leaf, old(parent.keys)[..idx] + [key] + old(parent.keys)[idx..], old(parent.vals),
                                     old(parent.kids)[..idx + 1] + [newNode] + old(parent.kids)[idx + 1..])
  {
    parent.keys := parent.keys[..idx] + [key] + parent.keys[idx..];
    parent.kids := parent.kids[..idx + 1] + [newNode] + parent.kids[idx + 1..];
  }

  method PutIn(node: Node, i: nat, key: Key, value: int, ghost ns: set<Node>)
    requires node in ns && i <= |node.keys| == |node.vals|
    modifies node
    ensures node in Snap(ns) && Extends(old(Snap(ns)), Snap(ns), {node}) && Links(ns) == old(Links(ns))
    ensures Snap(ns)[node] == Cell(node.leaf, old(node.keys)[..i] + [key] + old(node.keys)[i..],
                                   old(node.vals)[..i] + [value] + old(node.vals)[i..], old(node.kids))
  {
    node.keys := node.keys[..i] + [key] + node.keys[i..];
    node.vals := node.vals[..i] + [value] + node.vals[i..];
  }

  function IndexIn(ns: seq<Node>, n: Node): (i: nat)
    ensures i <= |ns| && n !in ns[..i] && (i < |ns| ==> ns[i] == n)
  {
    if ns == [] || ns[0] == n then 0 else 1 + IndexIn(ns[1..], n)
  }

  lemma {:induction false} IndexAmid(a: seq<Node>, n: Node, b: seq<Node>)
    requires n !in a
    ensures IndexIn(a + [n] + b, n) == |a|
  {
    if a != [] {
      assert (a + [n] + b)[0] == a[0] && (a + [n] + b)[1..] == a[1..] + [n] + b;
      IndexAmid(a[1..], n, b);
    }
  }

  lemma {:induction false} PositionIs(es: seq<Entry>, e: Entry, i: nat)
    requires i <= |es| && e !in es[..i] && (i < |es| ==> es[i] == e)
    ensures Position(es, e) == i
  {
    if i > 0 {
      assert es[..i][0] == es[0] && es[1..][..i - 1] == es[..i][1..];
      PositionIs(es[1..], e, i - 1);
    }
  }

  method TakeOut(node: Node, i: nat, ghost ns: set<Node>)
    requires node in ns && i < |node.keys| == |node.vals|
    modifies node
    ensures node in Snap(ns) && Extends(old(Snap(ns)), Snap(ns), {node}) && Links(ns) == old(Links(ns))
    ensures Snap(ns)[node] == Cell(node.leaf, old(node.keys)[..i] + old(node.keys)[i + 1..],
                                   old(node.vals)[..i] + old(node.vals)[i + 1..], old(node.kids))
  {
    node.keys := node.keys[..i] + node.keys[i + 1..];
    node.vals := node.vals[..i] + node.vals[i + 1..];
  }

  /** Child `i`: its leaves follow those of the children before it and are none of them. */
  lemma KidApart(h: Heap, t: HTree, i: nat)
    requires Rep(h, t) && Once(Ids(t)) && t.Inner? && i < |t.kids|
    ensures Rep(h, t.kids[i]) && Once(Ids(t.kids[i]))
    ensures LeafIdsAll(t.kids[..i + 1]) == LeafIdsAll(t.kids[..i]) + LeafIds(t.kids[i])
    ensures forall n | n in LeafIdsAll(t.kids[..i]) :: n !in LeafIds(t.kids[i])
  {
    var a, b := t.kids[..i], t.kids[i + 1..];
    assert t.kids == a + [t.kids[i]] + b && t.kids[..i + 1] == a + [t.kids[i]];
    Amid(h, a, t.kids[i], b);
    Append(a, [t.kids[i]]);
    BPlusHeap.Alone(h, t.kids[i]);
    ApartInBag(multiset{t.id}, IdsAll(a), Ids(t.kids[i]), IdsAll(b));
    LeafIdsAllAreIds(a);
    LeafIdsAreIds(t.kids[i]);
  }

  lemma ApartInBag(x: multiset<Node>, a: multiset<Node>, k: multiset<Node>, b: multiset<Node>)
    requires Once(x + (a + k + b))
    ensures Once(k) && forall n | n in a :: n !in k
  {
    forall n | n in k ensures k[n] == 1 && n !in a {
      assert (x + (a + k + b))[n] == 1;
    }
  }

  lemma LeavesDistinct(h: Heap, t: HTree)
    requires Rep(h, t) && Once(Ids(t))
    ensures Distinct(LeafIds(t)) && forall i | 0 <= i < |LeafIds(t)| :: LeafIds(t)[i] in h
  {
    LeafIdsOnce(t);
    LeafIdsAreIds(t);
    RepIds(h, t);
    var ls := LeafIds(t);
    forall i, j | 0 <= i < j < |ls| ensures ls[i] != ls[j] {
      if ls[i] == ls[j] {
        TwiceInBag(ls, i, j);
      }
    }
  }

  lemma TwiceInBag(ls: seq<Node>, i: nat, j: nat)
    requires i < j < |ls| && ls[i] == ls[j]
    ensures multiset(ls)[ls[i]] >= 2
  {
    assert ls == ls[..i] + [ls[i]] + ls[i + 1..j] + [ls[j]] + ls[j + 1..];
  }

  lemma NodeSeen(ns: set<Node>, n: Node)
    ensures n in Snap(ns) <==> n in ns
    ensures n in ns ==> Snap(ns)[n] == Cell(n.leaf, n.keys, n.vals, n.kids)
  {
  }

  lemma LeafSeen(h: Heap, links: map<Node, Node?>, c: Ctx, t: HTree)
    requires Holds(h, links, Plug(c, t)) && t.Leaf?
    ensures t.id in h && h[t.id] == Cell(true, t.keys, t.vals, [])
  {
    PlugRep(h, c, t);
  }

  lemma InnerSeen(h: Heap, links: map<Node, Node?>, c: Ctx, t: HTree)
    requires Holds(h, links, Plug(c, t)) && t.Inner?
    ensures t.id in h && h[t.id] == Cell(false, t.keys, [], Roots(t.kids)) && |Roots(t.kids)| == |t.kids|
  {
    PlugRep(h, c, t);
  }

  lemma RiseAtRoot(x: Node, l: HTree, key: Key, r: HTree, m: nat)
    requires m >= 2
    ensures Strip(Inner(x, [key], [l, r])) == Rooted(Rise(Top, Two(Strip(l), key, Strip(r)), m))
  {
    PairOf(map[], l, r);
  }

  lemma ParentOrNull(t: HTree, x: Node, p: Option<Node>)
    requires ParentOf(t, x) == p
    ensures OrNull(ParentOf(t, x)) == if p.Some? then p.value else null
  {
  }

  lemma FitsUp(c: Ctx)
    requires Fits(c) && c.Frame?
    ensures Fits(c.up) && |c.lkeys| == |c.left| && |c.rkeys| == |c.right|
    ensures |Roots(c.left)| == |c.left| && |Roots(c.right)| == |c.right|
  {
  }

  lemma TakenKeys(c: Ctx, l: HTree, key: Key, r: HTree)
    requires c.Frame? && Fits(c)
    ensures var t := Taken(c, l, key, r); t.Inner? && t.id == c.id && |t.kids| == |t.keys| + 1 && |t.keys| == |c.lkeys| + 1 + |c.rkeys|
  {
  }

  /** The rise ends at a node that is not too full. */
  lemma NoSplit(c: Ctx, t: HTree, m: nat)
    requires m >= 2 && Fits(c) && t.Inner? && |t.kids| == |t.keys| + 1 && |t.keys| <= m - 1
    ensures Strip(Plug(c, t)) == Rooted(Rise(c, SplitInner(t.keys, StripAll(t.kids), m), m))
  {
    RiseOne(c, t, m);
  }

  lemma NoLeafSplit(c: Ctx, t: HTree, m: nat)
    requires m >= 2 && Fits(c) && t.Leaf? && |t.keys| == |t.vals| && |t.keys| <= m - 1
    ensures Strip(Plug(c, t)) == Rooted(Rise(c, BPlusTree.SplitLeaf(t.keys, t.vals, m), m))
  {
    RiseOne(c, t, m);
  }

  lemma HalvesNamed(t: HTree, mid: nat, x: Node)
    requires t.Inner? && mid < |t.keys| && |t.kids| == |t.keys| + 1
    ensures LowerInner(t, mid).id == t.id && UpperInner(t, mid, x).id == x
  {
  }

  lemma LeafHalvesNamed(t: HTree, mid: nat, x: Node)
    requires t.Leaf? && mid < |t.keys| == |t.vals|
    ensures LowerLeaf(t, mid).id == t.id && UpperLeaf(t, mid, x).id == x && t.keys[mid..][0] == t.keys[mid]
  {
  }

  lemma GrowLeaf(t: HTree, t': HTree, k: Key, v: int, m: nat)
    requires m >= 2 && t.Leaf? && |t.keys| == |t.vals| && t'.Leaf?
    requires var i := LowerIndex(t.keys, k);
             t'.keys == t.keys[..i] + [k] + t.keys[i..] && t'.vals == t.vals[..i] + [v] + t.vals[i..]
    ensures |t'.keys| == |t'.vals| && Grow(Strip(t), k, v, m) == BPlusTree.SplitLeaf(t'.keys, t'.vals, m)
  {
  }

  lemma LeafPaired(t: HTree, c: Ctx, leaf: HTree, m: nat)
    requires (exists d: nat :: Shape(t, m, d)) && Plug(c, leaf) == t && leaf.Leaf?
    ensures |leaf.keys| == |leaf.vals|
  {
    var d: nat :| Shape(t, m, d);
    var e := PlugShape(c, leaf, m, d);
  }

  function Cut(t: HTree, i: nat): HTree
    requires t.Leaf? && i < |t.keys| == |t.vals|
  {
    Leaf(t.id, t.keys[..i] + t.keys[i + 1..], t.vals[..i] + t.vals[i + 1..])
  }

  lemma LeafShrank(h: Heap, h': Heap, links: map<Node, Node?>, c: Ctx, t: HTree, i: nat)
    requires Holds(h, links, Plug(c, t)) && t.Leaf? && i < |t.keys| == |t.vals|
    requires Extends(h, h', {t.id}) && t.id in h'
    requires h'[t.id] == Cell(true, t.keys[..i] + t.keys[i + 1..], t.vals[..i] + t.vals[i + 1..], [])
    ensures Holds(h', links, Plug(c, Cut(t, i)))
  {
    LeafEdited(h, h', links, c, t, Cut(t, i));
  }

  lemma DeleteFromLeaf(t: HTree, k: Key, v: int, i: nat)
    requires t.Leaf? && i <= |t.keys| == |t.vals| && forall j | 0 <= j < i :: t.keys[j] != k || t.vals[j] != v
    requires i < |t.keys| ==> t.keys[i] == k && t.vals[i] == v
    ensures BPlusTree.Delete(t, k, v) == (if i < |t.keys| then Cut(t, i) else t)
    ensures forall c: Ctx :: Plug(c, BPlusTree.Delete(t, k, v)).id == Plug(c, t).id
  {
    var es := Zip(t.keys, t.vals);
    assert (k, v) !in es[..i];
    PositionIs(es, (k, v), i);
    forall c: Ctx ensures Plug(c, BPlusTree.Delete(t, k, v)).id == Plug(c, t).id {
      PlugRoot(c, BPlusTree.Delete(t, k, v), t);
    }
  }

  lemma StaysValidLess(t: HTree, k: Key, v: int, m: nat)
    requires (exists d: nat :: Shape(t, m, d)) && Ordered(t, None, None)
    ensures var t' := BPlusTree.Delete(t, k, v);
            (exists d: nat :: Shape(t', m, d)) && Ordered(t', None, None) && Strip(t') == BPlusTree.Delete(Strip(t), k, v)
  {
    var d: nat :| Shape(t, m, d);
    BPlusExact.DeleteShape(t, k, v, m, d);
    BPlusExact.DeleteOrdered(t, k, v, None, None);
    StripDelete(t, k, v);
  }

  lemma StaysValid(t': HTree, t: HTree, k: Key, v: int, m: nat)
    requires m >= 2 && (exists d: nat :: Shape(t, m, d)) && Ordered(t, None, None)
    requires Strip(t') == BPlusTree.Insert(Strip(t), k, v, m)
    ensures (exists d: nat :: Shape(t', m, d)) && Ordered(t', None, None)
  {
    var d: nat :| Shape(t, m, d);
    StripShape(t, m, d);
    StripOrdered(t, None, None);
    var d' := BPlusIndex.InsertShape(Strip(t), k, v, m, d);
    InsertOrdered(Strip(t), k, v, m);
    StripShape(t', m, d');
    StripOrdered(t', None, None);
  }

  lemma {:induction false} DeleteBelow(c: Ctx, t: HTree, k: Key, v: int)
    requires OnPath(c, k)
    ensures BPlusTree.Delete(Plug(c, t), k, v) == Plug(c, BPlusTree.Delete(t, k, v))
    decreases c
  {
    if c.Frame? {
      var kids, t' := c.left + [t] + c.right, BPlusTree.Delete(t, k, v);
      assert kids[|c.left|] == t && kids[|c.left| := t'] == c.left + [t'] + c.right;
      DeleteBelow(c.up, Inner(c.id, c.lkeys + c.rkeys, kids), k, v);
    }
  }

  lemma {:induction false} StripDelete(t: HTree, k: Key, v: int)
    ensures Strip(BPlusTree.Delete(t, k, v)) == BPlusTree.Delete(Strip(t), k, v)
    decreases t
  {
    if t.Inner? && |t.kids| == |t.keys| + 1 {
      var i := ChildIndex(t.keys, k);
      StripDelete(t.kids[i], k, v);
      assert StripAll(t.kids[i := BPlusTree.Delete(t.kids[i], k, v)]) == StripAll(t.kids)[i := Strip(BPlusTree.Delete(t.kids[i], k, v))];
    }
  }

  /** Node `ns[i]` is the leaf `ls[i]` and links to the next one. */
  ghost predicate Standing(ns: seq<Node>, ls: seq<HTree>, i: nat)
    requires i < |ns| == |ls|
    reads ns
  {
    |ns[i].keys| == |ns[i].vals| && Flat(ls[i]) == Zip(ns[i].keys, ns[i].vals) && ns[i].next == After(ns, i)
  }

  ghost predicate Row(ns: seq<Node>, ls: seq<HTree>)
    reads ns
  {
    |ns| == |ls| && forall i | 0 <= i < |ns| :: Standing(ns, ls, i)
  }

  /** Collect what the leaves hold under `k`, from a given leaf on, stopping at the first greater key. */
  method WalkAt(start: Node, k: Key, ghost ns: seq<Node>, ghost ls: seq<HTree>) returns (results: seq<int>)
    requires Row(ns, ls) && SortedIn(FlatAll(ls), None, None) && |ns| > 0 && start == ns[0]
    ensures results == BPlusIndex.ValuesAt(FlatAll(ls), k)
  {
    var leaf: Node? := start;
    ghost var i, p, es := 0, 0, FlatAll(ls);
    results := [];
    while leaf != null
      invariant i <= |ns| && leaf == (if i < |ns| then ns[i] else null)
      invariant p == |FlatAll(ls[..i])| <= |es| && results == BPlusIndex.ValuesAt(es[..p], k)
      decreases |ns| - i
    {
      assert Standing(ns, ls, i);
      LeafStarts(ls, i);
      var done;
      results, done := CollectAt(leaf, k, results, es, p);
      if done {
        return;
      }
      p := p + |leaf.keys|;
      leaf := leaf.next;
      i := i + 1;
    }
    assert ls[..i] == ls && es[..p] == es;
  }

  /** Collect what the leaves hold within the bounds, from a given leaf on. */
  method WalkIn(start: Node, lo: Option<Key>, hi: Option<Key>, ghost ns: seq<Node>, ghost ls: seq<HTree>) returns (results: seq<int>)
    requires Row(ns, ls) && SortedIn(FlatAll(ls), None, None) && |ns| > 0 && start == ns[0]
    ensures results == BPlusIndex.ValuesIn(FlatAll(ls), lo, hi)
  {
    hide SortedIn, Zip, Flat;
    var leaf: Node? := start;
    ghost var i, p, es := 0, 0, FlatAll(ls);
    results := [];
    while leaf != null
      invariant i <= |ns| && leaf == (if i < |ns| then ns[i] else null)
      invariant p == |FlatAll(ls[..i])| <= |es| && results == BPlusIndex.ValuesIn(es[..p], lo, hi)
      decreases |ns| - i
    {
      assert Standing(ns, ls, i);
      LeafStarts(ls, i);
      var done;
      results, done := CollectIn(leaf, lo, hi, results, es, p);
      if done {
        return;
      }
      p := p + |leaf.keys|;
      leaf := leaf.next;
      i := i + 1;
    }
    assert ls[..i] == ls && es[..p] == es;
  }

  /** One leaf's share of a walk; `done` when a key beyond `k` ends it. */
  method CollectAt(leaf: Node, k: Key, before: seq<int>, ghost es: seq<Entry>, ghost p: nat) returns (results: seq<int>, done: bool)
    requires |leaf.keys| == |leaf.vals| && p + |leaf.keys| <= |es| && es[p..p + |leaf.keys|] == Zip(leaf.keys, leaf.vals)
    requires SortedIn(es, None, None) && before == BPlusIndex.ValuesAt(es[..p], k)
    ensures results == if done then BPlusIndex.ValuesAt(es, k) else BPlusIndex.ValuesAt(es[..p + |leaf.keys|], k)
  {
    hide BPlusIndex.ValuesAt, Zip, SortedIn;
    results := before;
    var j := 0;
    while j < |leaf.keys|
      invariant j <= |leaf.keys| && results == BPlusIndex.ValuesAt(es[..p + j], k)
    {
      assert es[p..p + |leaf.keys|][j] == (leaf.keys[j], leaf.vals[j]);
      ValuesAtStep(es, p + j, k);
      if leaf.keys[j] == k {
        results := results + [leaf.vals[j]];
      } else if leaf.keys[j] > k {
        ValuesAtDone(es, p + j, k);
        return results, true;
      }
      j := j + 1;
    }
    done := false;
  }

  method CollectIn(leaf: Node, lo: Option<Key>, hi: Option<Key>, before: seq<int>, ghost es: seq<Entry>, ghost p: nat)
    returns (results: seq<int>, done: bool)
    requires |leaf.keys| == |leaf.vals| && p + |leaf.keys| <= |es| && es[p..p + |leaf.keys|] == Zip(leaf.keys, leaf.vals)
    requires SortedIn(es, None, None) && before == BPlusIndex.ValuesIn(es[..p], lo, hi)
    ensures results == if done then BPlusIndex.ValuesIn(es, lo, hi) else BPlusIndex.ValuesIn(es[..p + |leaf.keys|], lo, hi)
  {
    hide BPlusIndex.ValuesIn, Zip, SortedIn;
    results := before;
    var j := 0;
    while j < |leaf.keys|
      invariant j <= |leaf.keys| && results == BPlusIndex.ValuesIn(es[..p + j], lo, hi)
    {
      var k := leaf.keys[j];
      assert es[p..p + |leaf.keys|][j] == (k, leaf.vals[j]);
      ValuesInStep(es, p + j, lo, hi);
      if lo.Some? && k < lo.value {
      } else if hi.Some? && k > hi.value {
        ValuesInDone(es, p + j, lo, hi);
        return results, true;
      } else {
        results := results + [leaf.vals[j]];
      }
      j := j + 1;
    }
    done := false;
  }

  predicate KeyIn(ks: seq<Key>, k: Key) {
    exists i | 0 <= i < |ks| :: ks[i] == k
  }

  lemma SortedFrom(t: HTree, s: nat)
    requires Ordered(t, None, None) && s <= |Leaves(t)|
    ensures SortedIn(FlatAll(Leaves(t)[s..]), None, None)
  {
    OrderedFlat(t, None, None);
    LeavesFlat(t);
    var ls := Leaves(t);
    assert ls == ls[..s] + ls[s..];
    FlatAllAppend(ls[..s], ls[s..]);
    SortedSuffix(FlatAll(ls[..s]), FlatAll(ls[s..]));
  }

  lemma SortedSuffix(a: seq<Entry>, b: seq<Entry>)
    requires SortedIn(a + b, None, None)
    ensures SortedIn(b, None, None)
  {
    assert forall i | 0 <= i < |b| :: (a + b)[|a| + i] == b[i];
  }

  /** Nothing under `k` lies before the leaf where the walk starts. */
  lemma FromFirst(t: HTree, k: Key)
    requires Ordered(t, None, None)
    ensures FirstLeaf(t, k) < |Leaves(t)|
    ensures BPlusIndex.ValuesAt(FlatAll(Leaves(t)[FirstLeaf(t, k)..]), k) == BPlusIndex.ValuesAt(Flat(t), k)
  {
    FirstLeafSplits(t, None, None, k);
    LeavesFlat(t);
    var ls, f := Leaves(t), FirstLeaf(t, k);
    assert ls == ls[..f] + ls[f..];
    FlatAllAppend(ls[..f], ls[f..]);
    ValuesAtAppend(FlatAll(ls[..f]), FlatAll(ls[f..]), k);
    BPlusIndex.NoValues(FlatAll(ls[..f]), k);
  }

  /** The descent's leaf is the one the value tree calls found, and its keys tell whether `k` is there. */
  lemma FoundAt(h: Heap, links: map<Node, Node?>, t: HTree, m: nat, d: nat, c: Ctx, leaf: HTree, k: Key)
    requires Holds(h, links, t) && Shape(t, m, d) && Plug(c, leaf) == t && leaf.Leaf? && OnPath(c, k)
    ensures FoundLeaf(t, k) < |Leaves(t)| && Leaves(t)[FoundLeaf(t, k)].keys == leaf.keys
    ensures leaf.id in h && h[leaf.id] == Cell(true, leaf.keys, leaf.vals, []) && |leaf.keys| == |leaf.vals|
    ensures BPlusIndex.Has(Flat(Leaves(t)[FoundLeaf(t, k)]), k) <==> KeyIn(leaf.keys, k)
  {
    PathFinds(c, leaf, k);
    LeafInHole(c, leaf);
    WalkLeaf(h, links, t, m, d, 0, FoundLeaf(t, k));
    PlugRep(h, c, leaf);
    ZipHas(leaf.keys, Leaves(t)[FoundLeaf(t, k)].vals, k);
  }

  lemma ZipHas(ks: seq<Key>, vs: seq<int>, k: Key)
    requires |ks| == |vs|
    ensures BPlusIndex.Has(Zip(ks, vs), k) <==> KeyIn(ks, k)
  {
    var es := Zip(ks, vs);
    assert forall i | 0 <= i < |es| :: es[i].0 == ks[i];
    if KeyIn(ks, k) {
      var i :| 0 <= i < |ks| && ks[i] == k;
      assert es[i].0 == k;
    }
  }
}
