/** The elementary updates of the linked tree, and how a split rises through the ancestors. */
module BPlusSteps {
  import opened Wrappers
  import opened BPlusTree
  import opened BPlusHeap

  /** The heap holds exactly this tree, no node twice, with its leaves linked in order. */
  ghost predicate Holds(h: Heap, links: map<Node, Node?>, t: HTree) {
    Rep(h, t) && Once(Ids(t)) && Chain(links, LeafIds(t))
  }

  /** A split not yet entered in the parent: `r` belongs right after `l`, which is in the hole. */
  ghost predicate Pending(h: Heap, links: map<Node, Node?>, c: Ctx, l: HTree, r: HTree) {
    && CtxRep(h, c, l.id) && Rep(h, l) && Rep(h, r)
    && Once(CtxIds(c) + Ids(l) + Ids(r))
    && Chain(links, CtxBefore(c) + LeafIds(l) + LeafIds(r) + CtxAfter(c))
  }

  ghost predicate Extends(h: Heap, h': Heap, changed: set<Node>) {
    forall n | n in h && n !in changed :: n in h' && h'[n] == h[n]
  }

  /** Links kept, but for the given nodes. */
  ghost predicate Relinked(links: map<Node, Node?>, links': map<Node, Node?>, changed: set<Node>) {
    forall n | n in links && n !in changed :: n in links' && links'[n] == links[n]
  }

  lemma OnceApart(a: multiset<Node>, b: multiset<Node>, n: Node)
    requires Once(a + b) && n in b
    ensures n !in a
  {
    assert (a + b)[n] == 1;
  }

  lemma CtxIds_(h: Heap, c: Ctx, hole: Node)
    requires CtxRep(h, c, hole)
    ensures forall n | n in CtxIds(c) :: n in h
    decreases c
  {
    if c.Frame? {
      RepAllIds(h, c.left);
      RepAllIds(h, c.right);
      CtxIds_(h, c.up, c.id);
    }
  }

  /** One node's contents change: the rest of the tree is still there. */
  lemma ContextStays(h: Heap, h': Heap, c: Ctx, n: Node)
    requires CtxRep(h, c, n) && n !in CtxIds(c) && Extends(h, h', {n})
    ensures CtxRep(h', c, n)
  {
    CtxIds_(h, c, n);
    CtxFrame(h, h', c, n);
  }

  lemma LeafEdited(h: Heap, h': Heap, links: map<Node, Node?>, c: Ctx, t: HTree, t': HTree)
    requires Holds(h, links, Plug(c, t)) && t.Leaf? && t'.Leaf? && t'.id == t.id
    requires Extends(h, h', {t.id}) && Rep(h', t')
    ensures Holds(h', links, Plug(c, t'))
  {
    PlugRep(h, c, t);
    PlugRep(h', c, t');
    PlugIds(c, t);
    PlugIds(c, t');
    PlugLeaves(c, t);
    PlugLeaves(c, t');
    OnceApart(CtxIds(c), Ids(t), t.id);
    ContextStays(h, h', c, t.id);
  }

  lemma {:induction false} ChainSplit(links: map<Node, Node?>, links': map<Node, Node?>, a: seq<Node>, n: Node, x: Node, b: seq<Node>)
    requires Chain(links, a + [n] + b) && x !in a && x !in b && n !in a && n !in b && x != n
    requires Relinked(links, links', {n, x})
    requires n in links && n in links' && links'[n] == x && x in links' && links'[x] == links[n]
    ensures Chain(links', a + [n] + [x] + b)
  {
    var s, s' := a + [n] + b, a + [n] + [x] + b;
    assert s[|a|] == n && (b != [] ==> s[|a| + 1] == b[0]);
    forall i | 0 <= i < |s'| ensures s'[i] in links' && links'[s'[i]] == After(s', i) {
      if i < |a| {
        assert s[i] == a[i] && s[i] in links;
      } else if i > |a| + 1 {
        assert s[i - 1] == b[i - |a| - 2] && s[i - 1] in links;
      }
    }
  }

  lemma OnceMore(a: multiset<Node>, n: Node, x: Node)
    requires Once(a + multiset{n}) && x !in a && x != n
    ensures Once(a + multiset{n} + multiset{x})
  {
    forall y ensures (a + multiset{n} + multiset{x})[y] <= 1 {
      assert (a + multiset{n})[y] <= 1;
    }
  }

  lemma LeafSplit(h: Heap, h': Heap, links: map<Node, Node?>, links': map<Node, Node?>, c: Ctx, t: HTree, l: HTree, r: HTree)
    requires Holds(h, links, Plug(c, t)) && t.Leaf? && l.Leaf? && r.Leaf? && l.id == t.id
    requires r.id !in h && Extends(h, h', {t.id}) && Rep(h', l) && Rep(h', r)
    requires Relinked(links, links', {l.id, r.id})
    requires l.id in links && l.id in links' && links'[l.id] == r.id && r.id in links' && links'[r.id] == links[l.id]
    ensures Pending(h', links', c, l, r)
  {
    hide Plug, CtxRep, CtxBefore, CtxAfter, Chain, Extends;
    PlugRep(h, c, t);
    PlugIds(c, t);
    PlugLeaves(c, t);
    OnceApart(CtxIds(c), Ids(t), t.id);
    ContextStays(h, h', c, t.id);
    CtxIds_(h, c, t.id);
    LeavesOutside(c, t);
    OnceMore(CtxIds(c), t.id, r.id);
    ChainSplit(links, links', CtxBefore(c), t.id, r.id, CtxAfter(c));
  }

  lemma {:induction false} SideLeaves(c: Ctx)
    ensures forall i | 0 <= i < |CtxBefore(c)| :: CtxBefore(c)[i] in CtxIds(c)
    ensures forall i | 0 <= i < |CtxAfter(c)| :: CtxAfter(c)[i] in CtxIds(c)
    decreases c
  {
    if c.Frame? {
      SideLeaves(c.up);
      LeafIdsAllAreIds(c.left);
      LeafIdsAllAreIds(c.right);
    }
  }

  lemma LeavesOutside(c: Ctx, t: HTree)
    ensures forall n | n in CtxBefore(c) || n in CtxAfter(c) :: n in CtxIds(c)
  {
    SideLeaves(c);
  }

  /** The parent takes the new node in. */
  lemma Adopted(h: Heap, h': Heap, links: map<Node, Node?>, c: Ctx, l: HTree, key: Key, r: HTree)
    requires c.Frame? && Pending(h, links, c, l, r) && Extends(h, h', {c.id}) && c.id in h'
    requires h'[c.id] == Cell(false, c.lkeys + [key] + c.rkeys, [], Roots(c.left) + [l.id, r.id] + Roots(c.right))
    ensures Holds(h', links, Plug(c.up, Inner(c.id, c.lkeys + [key] + c.rkeys, c.left + [l, r] + c.right)))
  {
    var kids := c.left + [l, r] + c.right;
    var t := Inner(c.id, c.lkeys + [key] + c.rkeys, kids);
    AdoptedKids(h, h', c, l, r);
    AdoptedLists(c, l, r);
    PlugIds(c.up, t);
    PlugLeaves(c.up, t);
    PlugRep(h', c.up, t);
    assert Ids(Plug(c.up, t)) == CtxIds(c) + Ids(l) + Ids(r) by {
      SameBag(CtxIds(c.up), multiset{c.id}, IdsAll(c.left), Ids(l), Ids(r), IdsAll(c.right));
    }
    Nest2(CtxBefore(c.up), LeafIdsAll(c.left), LeafIds(l), LeafIds(r), LeafIdsAll(c.right), CtxAfter(c.up));
  }

  lemma SameBag(u: multiset<Node>, i: multiset<Node>, a: multiset<Node>, l: multiset<Node>, r: multiset<Node>, b: multiset<Node>)
    ensures u + (i + (a + l + r + b)) == (i + a + b + u) + l + r
  {
  }

  lemma Nest2<T>(a: seq<T>, b: seq<T>, c: seq<T>, d: seq<T>, e: seq<T>, f: seq<T>)
    ensures a + (b + c + d + e) + f == (a + b) + c + d + (e + f)
  {
  }

  lemma AdoptedLists(c: Ctx, l: HTree, r: HTree)
    requires c.Frame?
    ensures IdsAll(c.left + [l, r] + c.right) == IdsAll(c.left) + Ids(l) + Ids(r) + IdsAll(c.right)
    ensures LeafIdsAll(c.left + [l, r] + c.right) == LeafIdsAll(c.left) + LeafIds(l) + LeafIds(r) + LeafIdsAll(c.right)
    ensures Roots(c.left + [l, r] + c.right) == Roots(c.left) + [l.id, r.id] + Roots(c.right)
  {
    Append(c.left + [l, r], c.right);
    Append(c.left, [l, r]);
    PairOf(map[], l, r);
    Assoc4(LeafIdsAll(c.left), LeafIds(l), LeafIds(r), LeafIdsAll(c.right));
  }

  lemma OnlyOnce(i: Node, a: multiset<Node>, b: multiset<Node>, u: multiset<Node>, l: multiset<Node>, r: multiset<Node>)
    requires Once(multiset{i} + a + b + u + l + r)
    ensures i !in a && i !in b && i !in u && i !in l && i !in r
  {
    assert (multiset{i} + a + b + u + l + r)[i] == 1;
  }

  lemma AdoptedKids(h: Heap, h': Heap, c: Ctx, l: HTree, r: HTree)
    requires c.Frame? && CtxRep(h, c, l.id) && Rep(h, l) && Rep(h, r) && Extends(h, h', {c.id})
    requires Once(CtxIds(c) + Ids(l) + Ids(r))
    ensures RepAll(h', c.left + [l, r] + c.right) && CtxRep(h', c.up, c.id)
  {
    OnlyOnce(c.id, IdsAll(c.left), IdsAll(c.right), CtxIds(c.up), Ids(l), Ids(r));
    AllStay(h, h', c.left, c.id);
    AllStay(h, h', c.right, c.id);
    Stays(h, h', l, c.id);
    Stays(h, h', r, c.id);
    ContextStays(h, h', c.up, c.id);
    PairAmid(h', c.left, l, r, c.right);
  }

  lemma PairAmid(h: Heap, a: seq<HTree>, l: HTree, r: HTree, b: seq<HTree>)
    requires RepAll(h, a) && Rep(h, l) && Rep(h, r) && RepAll(h, b)
    ensures RepAll(h, a + [l, r] + b)
  {
    RepAllAppend(h, a + [l, r], b);
    RepAllAppend(h, a, [l, r]);
    PairOf(h, l, r);
  }

  lemma Stays(h: Heap, h': Heap, t: HTree, n: Node)
    requires Rep(h, t) && n !in Ids(t) && Extends(h, h', {n})
    ensures Rep(h', t)
  {
    RepIds(h, t);
    RepFrame(h, h', t);
  }

  lemma AllStay(h: Heap, h': Heap, ts: seq<HTree>, n: Node)
    requires RepAll(h, ts) && n !in IdsAll(ts) && Extends(h, h', {n})
    ensures RepAll(h', ts)
  {
    RepAllIds(h, ts);
    RepAllFrame(h, h', ts);
  }

  /** An inner node gives its upper half to a new node. */
  lemma InnerSplit(h: Heap, h': Heap, links: map<Node, Node?>, links': map<Node, Node?>, c: Ctx, t: HTree, l: HTree, r: HTree, i: nat)
    requires Holds(h, links, Plug(c, t)) && t.Inner? && l.Inner? && r.Inner? && l.id == t.id
    requires i <= |t.kids| && l.kids == t.kids[..i] && r.kids == t.kids[i..]
    requires r.id !in h && Extends(h, h', {t.id})
    requires t.id in h' && h'[t.id] == Cell(false, l.keys, [], Roots(l.kids))
    requires r.id in h' && h'[r.id] == Cell(false, r.keys, [], Roots(r.kids))
    requires Relinked(links, links', {r.id})
    ensures Pending(h', links', c, l, r)
  {
    hide Rep, RepAll, CtxRep, Once, Chain, Plug, CtxIds, CtxBefore, CtxAfter, IdsAll, LeafIdsAll;
    PlugLeaves(c, t);
    assert t.kids == l.kids + r.kids;
    Append(l.kids, r.kids);
    HalvesHeld(h, h', c, t, l, r);
    Assoc4(CtxBefore(c), LeafIds(l), LeafIds(r), CtxAfter(c));
    LinksKept(h, links, links', Plug(c, t), r.id);
  }

  lemma HalvesHeld(h: Heap, h': Heap, c: Ctx, t: HTree, l: HTree, r: HTree)
    requires Rep(h, Plug(c, t)) && Once(Ids(Plug(c, t))) && t.Inner? && l.Inner? && r.Inner? && l.id == t.id
    requires t.kids == l.kids + r.kids && IdsAll(t.kids) == IdsAll(l.kids) + IdsAll(r.kids)
    requires r.id !in h && Extends(h, h', {t.id})
    requires t.id in h' && h'[t.id] == Cell(false, l.keys, [], Roots(l.kids))
    requires r.id in h' && h'[r.id] == Cell(false, r.keys, [], Roots(r.kids))
    ensures CtxRep(h', c, l.id) && Rep(h', l) && Rep(h', r) && Once(CtxIds(c) + Ids(l) + Ids(r))
  {
    PlugRep(h, c, t);
    PlugIds(c, t);
    RepAllAppend(h, l.kids, r.kids);
    InnerHalvesOnce(c, t, l, r, Ids(Plug(c, t)), h);
    OnceApart(CtxIds(c) + IdsAll(t.kids), multiset{t.id}, t.id);
    ContextStays(h, h', c, t.id);
    AllStay(h, h', l.kids, t.id);
    AllStay(h, h', r.kids, t.id);
  }

  lemma Assoc4<T>(a: seq<T>, b: seq<T>, c: seq<T>, d: seq<T>)
    ensures a + (b + c) + d == a + b + c + d
  {
  }

  lemma InnerHalvesOnce(c: Ctx, t: HTree, l: HTree, r: HTree, all: multiset<Node>, h: Heap)
    requires Rep(h, Plug(c, t)) && all == Ids(Plug(c, t)) == CtxIds(c) + Ids(t) && Once(all)
    requires t.Inner? && l.Inner? && r.Inner? && l.id == t.id && r.id !in h
    requires IdsAll(t.kids) == IdsAll(l.kids) + IdsAll(r.kids)
    ensures Once(CtxIds(c) + Ids(l) + Ids(r)) && Once(CtxIds(c) + IdsAll(t.kids) + multiset{t.id})
  {
    RepIds(h, Plug(c, t));
    assert r.id !in all;
    Halves(CtxIds(c), multiset{t.id}, IdsAll(l.kids), IdsAll(r.kids), multiset{r.id});
    assert CtxIds(c) + Ids(l) + Ids(r) == all + multiset{r.id};
  }

  lemma Halves(c: multiset<Node>, t: multiset<Node>, l: multiset<Node>, r: multiset<Node>, x: multiset<Node>)
    ensures c + (t + l) + (x + r) == c + (t + (l + r)) + x
    ensures c + (l + r) + t == c + (t + (l + r))
  {
  }

  lemma LinksKept(h: Heap, links: map<Node, Node?>, links': map<Node, Node?>, t: HTree, x: Node)
    requires Rep(h, t) && x !in h && Chain(links, LeafIds(t))
    requires Relinked(links, links', {x})
    ensures Chain(links', LeafIds(t))
  {
    RepIds(h, t);
    LeafIdsAreIds(t);
    ChainKept(h, links, links', LeafIds(t), x);
  }

  lemma ChainKept(h: Heap, links: map<Node, Node?>, links': map<Node, Node?>, ns: seq<Node>, x: Node)
    requires x !in h && Chain(links, ns) && forall i | 0 <= i < |ns| :: ns[i] in h
    requires Relinked(links, links', {x})
    ensures Chain(links', ns)
  {
    forall i | 0 <= i < |ns| ensures ns[i] in links' && links'[ns[i]] == After(ns, i) {
      assert ns[i] in h;
    }
  }

  /** A split root gets a new root above it. */
  lemma NewRoot(h: Heap, h': Heap, links: map<Node, Node?>, links': map<Node, Node?>, l: HTree, key: Key, r: HTree, x: Node)
    requires Pending(h, links, Top, l, r) && x !in h && Extends(h, h', {})
    requires x in h' && h'[x] == Cell(false, [key], [], [l.id, r.id])
    requires Relinked(links, links', {x})
    ensures Holds(h', links', Inner(x, [key], [l, r]))
  {
    NewRootRep(h, h', l, key, r, x);
    PairOf(h', l, r);
    var ls := LeafIds(l) + LeafIds(r);
    assert CtxBefore(Top) + LeafIds(l) + LeafIds(r) + CtxAfter(Top) == ls;
    ChainKept(h, links, links', ls, x);
    RootOnce(l, r, x);
  }

  lemma NewRootRep(h: Heap, h': Heap, l: HTree, key: Key, r: HTree, x: Node)
    requires Rep(h, l) && Rep(h, r) && x !in h && Extends(h, h', {})
    requires x in h' && h'[x] == Cell(false, [key], [], [l.id, r.id])
    ensures Rep(h', Inner(x, [key], [l, r])) && x !in Ids(l) && x !in Ids(r)
    ensures forall i | 0 <= i < |LeafIds(l) + LeafIds(r)| :: (LeafIds(l) + LeafIds(r))[i] in h
  {
    RepIds(h, l);
    RepIds(h, r);
    RepFrame(h, h', l);
    RepFrame(h, h', r);
    PairOf(h', l, r);
    LeafIdsAreIds(l);
    LeafIdsAreIds(r);
    JoinedIn(h, LeafIds(l), LeafIds(r));
  }

  lemma JoinedIn(h: Heap, a: seq<Node>, b: seq<Node>)
    requires (forall n | n in a :: n in h) && (forall n | n in b :: n in h)
    ensures forall i | 0 <= i < |a + b| :: (a + b)[i] in h
  {
  }

  lemma RootOnce(l: HTree, r: HTree, x: Node)
    requires Once(CtxIds(Top) + Ids(l) + Ids(r)) && x !in Ids(l) && x !in Ids(r)
    ensures Once(multiset{x} + (Ids(l) + Ids(r)))
  {
    assert CtxIds(Top) + Ids(l) + Ids(r) == Ids(l) + Ids(r);
  }

  lemma PairOf(h: Heap, l: HTree, r: HTree)
    ensures IdsAll([l, r]) == Ids(l) + Ids(r) && LeafIdsAll([l, r]) == LeafIds(l) + LeafIds(r)
    ensures Roots([l, r]) == [l.id, r.id] && (RepAll(h, [l, r]) <==> Rep(h, l) && Rep(h, r))
    ensures StripAll([l, r]) == [Strip(l), Strip(r)]
  {
    assert [l, r][1..] == [r];
    Alone(h, r);
  }

  // ---- the rise ----

  /** What the whole tree becomes when the hole becomes `g`. */
  function Rise(c: Ctx, g: Grown, m: nat): Grown
    requires m >= 2
    decreases c
  {
    match c
    case Top => g
    case Frame(_, lk, l, rk, r, up) =>
      if |lk| != |l| || |rk| != |r| then g
      else Rise(up, Graft(lk + rk, StripAll(l) + [EMPTY] + StripAll(r), |l|, g, m), m)
  }

  function Rooted(g: Grown): VTree {
    match g
    case One(t) => t
    case Two(l, s, r) => Inner((), [s], [l, r])
  }

  /** Splitting bottom-up, from the leaf, is inserting top-down, from the root. */
  lemma {:induction false} RiseIsGrow(c: Ctx, t: HTree, k: Key, v: int, m: nat)
    requires m >= 2 && OnPath(c, k)
    ensures Grow(Strip(Plug(c, t)), k, v, m) == Rise(c, Grow(Strip(t), k, v, m), m)
    decreases c
  {
    if c.Frame? {
      var n := Inner(c.id, c.lkeys + c.rkeys, c.left + [t] + c.right);
      Amid(map[], c.left, t, c.right);
      var kids := StripAll(c.left) + [Strip(t)] + StripAll(c.right);
      assert kids[|c.left|] == Strip(t);
      GraftIgnores(c.lkeys + c.rkeys, StripAll(c.left), Strip(t), StripAll(c.right), Grow(Strip(t), k, v, m), m);
      RiseIsGrow(c.up, n, k, v, m);
    }
  }

  lemma GraftIgnores(ks: seq<Key>, l: seq<VTree>, t: VTree, r: seq<VTree>, g: Grown, m: nat)
    requires m >= 2 && |l| + 1 + |r| == |ks| + 1
    ensures Graft(ks, l + [t] + r, |l|, g, m) == Graft(ks, l + [EMPTY] + r, |l|, g, m)
  {
    var a, b := l + [t] + r, l + [EMPTY] + r;
    if g.One? {
      assert a[|l| := g.t] == b[|l| := g.t];
    } else {
      assert a[..|l|] == b[..|l|] && a[|l| + 1..] == b[|l| + 1..];
    }
  }

  // ---- the root, and a rise that stops ----

  /** Every node on the way up has one more child than keys. */
  ghost predicate Fits(c: Ctx) {
    c.Frame? ==> |c.lkeys| == |c.left| && |c.rkeys| == |c.right| && Fits(c.up)
  }

  lemma {:induction false} PathFits(c: Ctx, k: Key)
    requires OnPath(c, k)
    ensures Fits(c)
    decreases c
  {
    if c.Frame? {
      PathFits(c.up, k);
    }
  }

  lemma {:induction false} PlugRoot(c: Ctx, t: HTree, t': HTree)
    requires c.Frame? || t.id == t'.id
    ensures Plug(c, t).id == Plug(c, t').id
    decreases c
  {
    if c.Frame? {
      var n, n' := Inner(c.id, c.lkeys + c.rkeys, c.left + [t] + c.right), Inner(c.id, c.lkeys + c.rkeys, c.left + [t'] + c.right);
      PlugRoot(c.up, n, n');
    }
  }

  lemma {:induction false} RootInCtx(c: Ctx, t: HTree)
    requires c.Frame?
    ensures Plug(c, t).id in CtxIds(c)
    decreases c
  {
    if c.up.Frame? {
      RootInCtx(c.up, Inner(c.id, c.lkeys + c.rkeys, c.left + [t] + c.right));
    }
  }

  lemma RootIsHole(c: Ctx, t: HTree)
    requires Once(Ids(Plug(c, t)))
    ensures Plug(c, t).id == t.id <==> c.Top?
  {
    if c.Frame? {
      RootInCtx(c, t);
      PlugIds(c, t);
      OnceApart(CtxIds(c), Ids(t), t.id);
    }
  }

  lemma {:induction false} RiseOne(c: Ctx, t: HTree, m: nat)
    requires m >= 2 && Fits(c)
    ensures Rise(c, One(Strip(t)), m) == One(Strip(Plug(c, t)))
    decreases c
  {
    if c.Frame? {
      Amid(map[], c.left, t, c.right);
      GraftOne(c.lkeys + c.rkeys, StripAll(c.left), Strip(t), StripAll(c.right), m);
      RiseOne(c.up, Inner(c.id, c.lkeys + c.rkeys, c.left + [t] + c.right), m);
    }
  }

  lemma GraftOne(ks: seq<Key>, l: seq<VTree>, t: VTree, r: seq<VTree>, m: nat)
    requires m >= 2 && |l| + |r| == |ks|
    ensures Graft(ks, l + [EMPTY] + r, |l|, One(t), m) == One(Inner((), ks, l + [t] + r))
  {
    assert (l + [EMPTY] + r)[|l| := t] == l + [t] + r;
  }

  /** The parent of a split node, with the new child, either holds or splits in turn. */
  lemma RiseTwo(c: Ctx, l: HTree, key: Key, r: HTree, m: nat)
    requires m >= 2 && c.Frame? && Fits(c)
    ensures Rise(c, Two(Strip(l), key, Strip(r)), m)
            == Rise(c.up, SplitInner(c.lkeys + [key] + c.rkeys, StripAll(c.left + [l, r] + c.right), m), m)
  {
    var ks, kids, i := c.lkeys + c.rkeys, StripAll(c.left) + [EMPTY] + StripAll(c.right), |c.left|;
    assert ks[..i] == c.lkeys && ks[i..] == c.rkeys;
    assert kids[..i] == StripAll(c.left) && kids[i + 1..] == StripAll(c.right);
    StripAppend(c.left + [l, r], c.right);
    StripAppend(c.left, [l, r]);
    PairOf(map[], l, r);
  }

  lemma {:induction false} RootsAreIds(ts: seq<HTree>)
    ensures forall i | 0 <= i < |ts| :: ts[i].id in IdsAll(ts)
  {
    if ts != [] {
      RootsAreIds(ts[1..]);
      assert forall i | 0 < i < |ts| :: ts[i] == ts[1..][i - 1];
      assert ts[0].id in Ids(ts[0]);
    }
  }

  /** Where the parent keeps the split node. */
  lemma HoleAmongKids(c: Ctx, t: HTree)
    requires c.Frame? && Once(CtxIds(c) + Ids(t))
    ensures t.id !in Roots(c.left)
  {
    RootsAreIds(c.left);
    assert t.id in Ids(t);
    OnceApart(CtxIds(c), Ids(t), t.id);
    assert CtxIds(c) == multiset{c.id} + IdsAll(c.left) + IdsAll(c.right) + CtxIds(c.up);
  }

  // ---- the updates, as the operations make them ----

  function LowerLeaf(t: HTree, mid: nat): HTree
    requires t.Leaf? && mid <= |t.keys| == |t.vals|
  {
    Leaf(t.id, t.keys[..mid], t.vals[..mid])
  }

  function UpperLeaf(t: HTree, mid: nat, x: Node): HTree
    requires t.Leaf? && mid <= |t.keys| == |t.vals|
  {
    Leaf(x, t.keys[mid..], t.vals[mid..])
  }

  lemma LeafHalved(h: Heap, h': Heap, links: map<Node, Node?>, links': map<Node, Node?>, c: Ctx, t: HTree, x: Node, m: nat)
    requires m >= 2 && Holds(h, links, Plug(c, t)) && t.Leaf? && |t.keys| == |t.vals| && |t.keys| > m - 1
    requires x !in h && Extends(h, h', {t.id}) && Relinked(links, links', {t.id, x})
    requires t.id in h' && h'[t.id] == Cell(true, t.keys[..|t.keys| / 2], t.vals[..|t.keys| / 2], [])
    requires x in h' && h'[x] == Cell(true, t.keys[|t.keys| / 2..], t.vals[|t.keys| / 2..], [])
    requires t.id in links && t.id in links' && links'[t.id] == x && x in links' && links'[x] == links[t.id]
    ensures var mid := |t.keys| / 2; var l, r := LowerLeaf(t, mid), UpperLeaf(t, mid, x);
            && Pending(h', links', c, l, r) && Plug(c, l).id == Plug(c, t).id
            && BPlusTree.SplitLeaf(t.keys, t.vals, m) == Two(Strip(l), t.keys[mid], Strip(r))
    ensures Plug(c, t).id == t.id <==> c.Top?
  {
    var mid := |t.keys| / 2;
    LeafSplit(h, h', links, links', c, t, LowerLeaf(t, mid), UpperLeaf(t, mid, x));
    PlugRoot(c, t, LowerLeaf(t, mid));
    RootIsHole(c, t);
  }

  function LowerInner(t: HTree, mid: nat): HTree
    requires t.Inner? && mid < |t.keys| && |t.kids| == |t.keys| + 1
  {
    Inner(t.id, t.keys[..mid], t.kids[..mid + 1])
  }

  function UpperInner(t: HTree, mid: nat, x: Node): HTree
    requires t.Inner? && mid < |t.keys| && |t.kids| == |t.keys| + 1
  {
    Inner(x, t.keys[mid + 1..], t.kids[mid + 1..])
  }

  lemma RootsSplit(ts: seq<HTree>, i: nat)
    requires i <= |ts|
    ensures Roots(ts[..i]) == Roots(ts)[..i] && Roots(ts[i..]) == Roots(ts)[i..]
    ensures StripAll(ts[..i]) == StripAll(ts)[..i] && StripAll(ts[i..]) == StripAll(ts)[i..]
  {
    hide Roots, StripAll;
    var a, b := ts[..i], ts[i..];
    assert ts == a + b;
    RootsAppend(a, b);
    StripAppend(a, b);
  }

  lemma InnerHalved(h: Heap, h': Heap, links: map<Node, Node?>, links': map<Node, Node?>, c: Ctx, t: HTree, x: Node, m: nat)
    requires m >= 2 && Holds(h, links, Plug(c, t)) && t.Inner? && |t.kids| == |t.keys| + 1 && |t.keys| > m - 1
    requires x !in h && Extends(h, h', {t.id}) && Relinked(links, links', {x})
    requires t.id in h' && h'[t.id] == Cell(false, t.keys[..|t.keys| / 2], [], Roots(t.kids)[..|t.keys| / 2 + 1])
    requires x in h' && h'[x] == Cell(false, t.keys[|t.keys| / 2 + 1..], [], Roots(t.kids)[|t.keys| / 2 + 1..])
    ensures var mid := |t.keys| / 2; var l, r := LowerInner(t, mid), UpperInner(t, mid, x);
            && Pending(h', links', c, l, r) && Plug(c, l).id == Plug(c, t).id
            && SplitInner(t.keys, StripAll(t.kids), m) == Two(Strip(l), t.keys[mid], Strip(r))
    ensures Plug(c, t).id == t.id <==> c.Top?
  {
    var mid := |t.keys| / 2;
    RootsSplit(t.kids, mid + 1);
    InnerSplit(h, h', links, links', c, t, LowerInner(t, mid), UpperInner(t, mid, x), mid + 1);
    PlugRoot(c, t, LowerInner(t, mid));
    RootIsHole(c, t);
  }

  /** The parent with the new child in. */
  function Taken(c: Ctx, l: HTree, key: Key, r: HTree): HTree
    requires c.Frame?
  {
    Inner(c.id, c.lkeys + [key] + c.rkeys, c.left + [l, r] + c.right)
  }

  lemma AroundHole<T>(a: seq<T>, n: T, b: seq<T>, x: T)
    ensures (a + [n] + b)[..|a| + 1] + [x] + (a + [n] + b)[|a| + 1..] == a + [n, x] + b
  {
  }

  lemma AtGap<T>(a: seq<T>, b: seq<T>, x: T)
    ensures (a + b)[..|a|] + [x] + (a + b)[|a|..] == a + [x] + b
  {
  }

  lemma ParentTakes(h: Heap, h': Heap, links: map<Node, Node?>, c: Ctx, l: HTree, key: Key, r: HTree, m: nat)
    requires m >= 2 && c.Frame? && Fits(c) && Pending(h, links, c, l, r) && Extends(h, h', {c.id})
    requires c.id in h && c.id in h'
    requires h'[c.id] == Cell(false, h[c.id].keys[..|c.left|] + [key] + h[c.id].keys[|c.left|..], [],
                              h[c.id].kids[..|c.left| + 1] + [r.id] + h[c.id].kids[|c.left| + 1..])
    ensures Holds(h', links, Plug(c.up, Taken(c, l, key, r))) && Plug(c.up, Taken(c, l, key, r)).id == Plug(c, l).id
    ensures Rise(c, Two(Strip(l), key, Strip(r)), m) == Rise(c.up, SplitInner(Taken(c, l, key, r).keys, StripAll(Taken(c, l, key, r).kids), m), m)
  {
    AroundHole(Roots(c.left), l.id, Roots(c.right), r.id);
    AtGap(c.lkeys, c.rkeys, key);
    Adopted(h, h', links, c, l, key, r);
    RiseTwo(c, l, key, r, m);
    PlugRoot(c.up, Inner(c.id, c.lkeys + c.rkeys, c.left + [l] + c.right), Taken(c, l, key, r));
  }

  /** What is known of the parent of a split node. */
  lemma ParentHeld(h: Heap, links: map<Node, Node?>, c: Ctx, l: HTree, r: HTree)
    requires Pending(h, links, c, l, r)
    ensures Rep(h, Plug(c, l)) && ParentOf(Plug(c, l), l.id) == if c.Top? then None else Some(c.id)
    ensures c.Frame? ==> c.id in h && h[c.id] == Cell(false, c.lkeys + c.rkeys, [], Roots(c.left) + [l.id] + Roots(c.right))
                         && l.id !in Roots(c.left)
  {
    OnceLess(CtxIds(c), Ids(l), Ids(r));
    PlugRep(h, c, l);
    FindsParent(c, l);
    if c.Frame? {
      HoleAmongKids(c, l);
    }
  }

  lemma OnceLess(a: multiset<Node>, b: multiset<Node>, c: multiset<Node>)
    requires Once(a + b + c)
    ensures Once(a + b)
  {
    forall n | n in a + b ensures (a + b)[n] == 1 {
      assert (a + b + c)[n] == 1;
    }
  }

  lemma LeafGrew(h: Heap, h': Heap, links: map<Node, Node?>, c: Ctx, t: HTree, key: Key, value: int, i: nat)
    requires Holds(h, links, Plug(c, t)) && t.Leaf? && i == LowerIndex(t.keys, key) && |t.keys| == |t.vals|
    requires Extends(h, h', {t.id}) && t.id in h'
    requires h'[t.id] == Cell(true, t.keys[..i] + [key] + t.keys[i..], t.vals[..i] + [value] + t.vals[i..], [])
    ensures var t' := Leaf(t.id, t.keys[..i] + [key] + t.keys[i..], t.vals[..i] + [value] + t.vals[i..]);
            Holds(h', links, Plug(c, t')) && Plug(c, t').id == Plug(c, t).id
  {
    var t' := Leaf(t.id, t.keys[..i] + [key] + t.keys[i..], t.vals[..i] + [value] + t.vals[i..]);
    LeafEdited(h, h', links, c, t, t');
    PlugRoot(c, t, t');
  }
}
