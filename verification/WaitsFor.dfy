/** The waits-for graph and the depth-first search that looks for a deadlock in it. */
module WaitsFor {
  import opened Wrappers

  // Only the order of transaction identifiers matters to the engine: smaller means older.
  type TxId = int

  type Graph = map<TxId, set<TxId>>

  predicate Edge(g: Graph, a: TxId, b: TxId) {
    a in g && b in g[a]
  }

  ghost predicate IsPath(g: Graph, p: seq<TxId>) {
    forall i | 0 <= i < |p| - 1 :: Edge(g, p[i], p[i + 1])
  }

  ghost predicate IsCycle(g: Graph, c: seq<TxId>) {
    c != [] && IsPath(g, c) && Edge(g, c[|c| - 1], c[0])
  }

  ghost predicate Acyclic(g: Graph) {
    forall c: seq<TxId> :: !IsCycle(g, c)
  }

  ghost predicate Distinct<T>(s: seq<T>) {
    forall i, j | 0 <= i < j < |s| :: s[i] != s[j]
  }

  function Nodes(g: Graph): set<TxId> {
    g.Keys + (set a, b | a in g && b in g[a] :: b)
  }

  /** `done` lists nodes so that every edge out of a listed node leads to an earlier one. */
  ghost predicate Ordered(g: Graph, done: seq<TxId>) {
    forall i, b | 0 <= i < |done| && Edge(g, done[i], b) :: b in done[..i]
  }

  /** Every node the search has seen is either on the current path or finished. */
  ghost predicate SearchState(g: Graph, visited: set<TxId>, path: seq<TxId>, done: seq<TxId>) {
    && Ordered(g, done)
    && visited == (set x | x in path) + (set x | x in done)
    && (forall x | x in path :: x !in done)
    && IsPath(g, path) && Distinct(path)
  }

  lemma PathDescends(g: Graph, done: seq<TxId>, p: seq<TxId>, i: nat) returns (j: nat)
    requires Ordered(g, done) && p != [] && IsPath(g, p)
    requires i < |done| && done[i] == p[0]
    ensures j <= i && done[j] == p[|p| - 1]
  {
    j := i;
    if |p| > 1 {
      assert Edge(g, p[0], p[1]);
      var k :| 0 <= k < i && done[k] == p[1];
      assert IsPath(g, p[1..]) by {
        forall n | 0 <= n < |p[1..]| - 1 ensures Edge(g, p[1..][n], p[1..][n + 1]) { assert Edge(g, p[n + 1], p[n + 2]); }
      }
      j := PathDescends(g, done, p[1..], k);
    }
  }

  lemma {:induction false} CycleDescends(g: Graph, done: seq<TxId>, c: seq<TxId>, i: nat)
    requires Ordered(g, done) && IsCycle(g, c)
    requires i < |done| && done[i] == c[0]
    ensures false
  {
    var j := PathDescends(g, done, c, i);
    var k :| 0 <= k < j && done[k] == c[0];
    CycleDescends(g, done, c, k);
  }

  lemma OrderedIsAcyclic(g: Graph, done: seq<TxId>)
    requires Ordered(g, done) && (forall x | x in g :: x in done)
    ensures Acyclic(g)
  {
    forall c: seq<TxId> ensures !IsCycle(g, c) {
      if IsCycle(g, c) {
        assert c[0] in g by { if |c| > 1 { assert Edge(g, c[0], c[1]); } }
        var i :| 0 <= i < |done| && done[i] == c[0];
        CycleDescends(g, done, c, i);
      }
    }
  }

  lemma EnterNode(g: Graph, visited: set<TxId>, path: seq<TxId>, done: seq<TxId>, node: TxId)
    requires SearchState(g, visited, path, done) && node !in visited
    requires path != [] ==> Edge(g, path[|path| - 1], node)
    ensures SearchState(g, visited + {node}, path + [node], done)
  {
  }

  /** A node whose successors are all finished is finished itself. */
  lemma LeaveNode(g: Graph, visited: set<TxId>, path: seq<TxId>, done: seq<TxId>, node: TxId)
    requires SearchState(g, visited, path + [node], done)
    requires forall b | Edge(g, node, b) :: b in done
    ensures SearchState(g, visited, path, done + [node])
  {
    var p, d := path + [node], done + [node];
    forall i, b | 0 <= i < |d| && Edge(g, d[i], b) ensures b in d[..i] {
      assert d[..i] == done[..i];
    }
    assert forall i | 0 <= i < |path| :: path[i] == p[i];
    assert p[|path|] == node;
  }

  lemma BackEdgeCloses(g: Graph, path: seq<TxId>, start: nat)
    requires IsPath(g, path) && Distinct(path)
    requires start < |path| && Edge(g, path[|path| - 1], path[start])
    ensures IsCycle(g, path[start..]) && Distinct(path[start..])
  {
    var c := path[start..];
    forall i | 0 <= i < |c| - 1 ensures Edge(g, c[i], c[i + 1]) {
      assert Edge(g, path[start + i], path[start + i + 1]);
    }
  }

  /** Depth-first search from `node`. The sets of visited nodes and of nodes on the current path
      are shared by all the calls of one search; the path itself is copied at each call. */
  method FindCycle(g: Graph, node: TxId, visited: set<TxId>, recStack: set<TxId>, path: seq<TxId>, ghost done: seq<TxId>)
    returns (cycle: Option<seq<TxId>>, visited': set<TxId>, recStack': set<TxId>, ghost done': seq<TxId>)
    requires SearchState(g, visited, path, done) && recStack == (set x | x in path)
    requires node in Nodes(g) && node !in visited
    requires path != [] ==> Edge(g, path[|path| - 1], node)
    ensures cycle.Some? ==> IsCycle(g, cycle.value) && Distinct(cycle.value)
    ensures cycle.None? ==> SearchState(g, visited', path, done') && recStack' == recStack && node in done' && done <= done'
    ensures cycle.None? ==> visited <= visited'
    decreases Nodes(g) - visited
  {
    EnterNode(g, visited, path, done, node);
    visited', recStack', done' := visited + {node}, recStack + {node}, done;
    var path' := path + [node];
    assert recStack' == set x | x in path';
    if node in g {
      var todo := g[node];
      while todo != {}
        invariant SearchState(g, visited', path', done') && recStack' == recStack + {node}
        invariant visited + {node} <= visited' && todo <= g[node] && done <= done'
        invariant forall b | b in g[node] :: b in todo || b in done'
        decreases todo
      {
        var neighbor := Pick(todo);
        assert Edge(g, node, neighbor);
        if neighbor !in visited' {
          cycle, visited', recStack', done' := FindCycle(g, neighbor, visited', recStack', path', done');
          if cycle.Some? {
            return;
          }
        } else if neighbor in recStack' {
          var start := IndexOf(path', neighbor);
          BackEdgeCloses(g, path', start);
          return Some(path'[start..]), visited', recStack', done';
        }
        todo := todo - {neighbor};
      }
    }
    LeaveNode(g, visited', path, done', node);
    recStack' := recStack' - {node};
    done' := done' + [node];
    cycle := None;
  }

  method IndexOf(s: seq<TxId>, x: TxId) returns (i: nat)
    requires x in s
    ensures i < |s| && s[i] == x && x !in s[..i]
  {
    i := 0;
    while s[i] != x
      invariant i < |s| && x !in s[..i]
      decreases |s| - i
    {
      i := i + 1;
    }
  }

  /** `detect_deadlock`: a list exactly when the graph has a cycle, and the list is one. */
  method DetectDeadlock(g: Graph) returns (cycle: Option<seq<TxId>>)
    ensures cycle.Some? <==> !Acyclic(g)
    ensures cycle.Some? ==> IsCycle(g, cycle.value) && Distinct(cycle.value)
  {
    var visited: set<TxId> := {};
    ghost var done: seq<TxId> := [];
    var todo := g.Keys;
    while todo != {}
      invariant SearchState(g, visited, [], done) && todo <= g.Keys
      invariant forall x | x in g :: x in todo || x in done
      decreases todo
    {
      var tx := Pick(todo);
      if tx !in visited {
        var recStack: set<TxId>;
        cycle, visited, recStack, done := FindCycle(g, tx, visited, {}, [], done);
        if cycle.Some? {
          return;
        }
      }
      todo := todo - {tx};
    }
    cycle := None;
    OrderedIsAcyclic(g, done);
  }
}
