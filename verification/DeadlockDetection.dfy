module DeadlockDetection {
  // The wait-for-graph deadlock detector: a depth-first search with a visited set
  // and a recursion stack, proved to answer exactly whether the graph has a cycle.

  import opened Graphs
  import opened Sets

  /** Nodes that the search has finished with: closed under edges and on no cycle. */
  ghost predicate Clean(g: map<int, seq<int>>, done: set<int>)
  {
    && Closed(g, done)
    && forall p :: Cycle(g, p) ==> p[0] !in done
  }

  function Nodes(g: map<int, seq<int>>): set<int>
  {
    g.Keys + set u, v | u in g && v in g[u] :: v
  }

  function Successors(g: map<int, seq<int>>, u: int): seq<int>
  {
    if u in g then g[u] else []
  }

  /** The same graph but for entries, added for nodes it mentions, that hold no edges. */
  ghost predicate Padded(g: map<int, seq<int>>, h: map<int, seq<int>>)
  {
    g.Keys <= h.Keys <= Nodes(g) && forall u :: u in h ==> h[u] == Successors(g, u)
  }

  /** Padding changes no edge, so it changes neither who waits for whom nor the verdict. */
  lemma PaddingKeepsPaths(g: map<int, seq<int>>, h: map<int, seq<int>>)
    requires Padded(g, h)
    ensures forall p :: Path(g, p) <==> Path(h, p)
    ensures HasCycle(g) <==> HasCycle(h)
    ensures forall u, v :: Reaches(g, u, v) <==> Reaches(h, u, v)
  {
    assert forall u, v :: Edge(g, u, v) <==> Edge(h, u, v);
    assert forall p :: Path(g, p) <==> Path(h, p);
    assert forall p :: Cycle(g, p) <==> Cycle(h, p);
  }

  lemma ClosedHoldsNodes(g: map<int, seq<int>>, done: set<int>)
    requires Closed(g, done) && g.Keys <= done
    ensures Nodes(g) <= done
  {
    forall v | v in Nodes(g) ensures v in done {
      if u :| u in g && v in g[u] {
        assert Edge(g, u, v);
      }
    }
  }

  /** A node all of whose successors are finished can be finished too. */
  lemma CleanGrows(g: map<int, seq<int>>, done: set<int>, u: int)
    requires Clean(g, done) && u !in done
    requires forall v :: v in Successors(g, u) ==> v in done
    ensures Clean(g, done + {u})
  {
    forall x, y | x in done + {u} && Edge(g, x, y) ensures y in done + {u} {
    }
    forall p | Cycle(g, p) ensures p[0] !in done + {u} {
      if p[0] == u {
        assert Edge(g, p[0], p[0 + 1]);
        var q := p[1..];
        assert Path(g, q) by {
          forall i | 0 <= i < |q| - 1 ensures Edge(g, q[i], q[i + 1]) {
            assert Edge(g, p[i + 1], p[i + 1 + 1]);
          }
        }
        PathStaysInside(g, done, q, |q| - 1);
        assert false;
      }
    }
  }

  lemma CycleStartsAtKey(g: map<int, seq<int>>, p: seq<int>)
    requires Cycle(g, p)
    ensures p[0] in g
  {
    assert Edge(g, p[0], p[0 + 1]);
  }

  /** Once every key is finished the whole graph is acyclic. */
  lemma CleanEverywhere(g: map<int, seq<int>>, done: set<int>)
    requires Clean(g, done) && g.Keys <= done
    ensures !HasCycle(g)
  {
    forall p | Cycle(g, p) ensures p[0] in g {
      CycleStartsAtKey(g, p);
    }
  }

  /** An edge from the end of a path back to one of its nodes closes a cycle. */
  lemma BackEdgeClosesCycle(g: map<int, seq<int>>, path: seq<int>, v: int)
    requires Path(g, path) && v in path && Edge(g, path[|path| - 1], v)
    ensures HasCycle(g)
  {
    var k :| 0 <= k < |path| && path[k] == v;
    var c := path[k..] + [v];
    forall i | 0 <= i < |c| - 1 ensures Edge(g, c[i], c[i + 1]) {
      if i < |c| - 2 {
        assert Edge(g, path[k + i], path[k + i + 1]);
      }
    }
    assert Cycle(g, c);
  }

  class DeadlockDetector {
    var graph: map<int, seq<int>>

    constructor ()
      ensures graph == map[]
    {
      graph := map[];
    }

    method AddDependency(waitingTxn: int, holdingTxn: int)
      modifies this
      ensures graph == Add(old(graph), waitingTxn, holdingTxn)
    {
      if waitingTxn !in graph {
        graph := graph[waitingTxn := []];
      }
      graph := graph[waitingTxn := graph[waitingTxn] + [holdingTxn]];
    }

    /** What `graph[txn]` reads: a missing transaction is entered with no dependencies. */
    method Dependencies(txn: int, ghost g: map<int, seq<int>>) returns (succ: seq<int>)
      requires Padded(g, graph) && txn in Nodes(g)
      modifies this
      ensures Padded(g, graph) && graph.Keys == old(graph).Keys + {txn} && succ == Successors(g, txn)
    {
      if txn !in graph {
        graph := graph[txn := []];
      }
      succ := graph[txn];
    }

    /** Searches from txn. `g` is the graph the search was started on, `path` the ghost
        list of the nodes on the recursion stack, from the root of the search to the
        caller of this call. */
    method IsCycle(txn: int, visited: set<int>, recStack: set<int>, ghost path: seq<int>, ghost g: map<int, seq<int>>)
      returns (found: bool, visited': set<int>, recStack': set<int>)
      requires Padded(g, graph) && visited <= graph.Keys
      requires txn !in visited && txn in Nodes(g) && recStack <= visited
      requires forall v :: v in recStack <==> v in path
      requires Path(g, path + [txn])
      requires Clean(g, visited - recStack)
      modifies this
      ensures Padded(g, graph) && old(graph).Keys <= graph.Keys && visited' <= graph.Keys
      ensures found ==> HasCycle(g)
      ensures !found ==> recStack' == recStack && visited + {txn} <= visited' && Clean(g, visited' - recStack')
      decreases Nodes(g) - visited
    {
      visited' := visited + {txn};
      recStack' := recStack + {txn};
      assert visited' - recStack' == visited - recStack;
      ghost var here := path + [txn];
      var succ := Dependencies(txn, g);
      for i := 0 to |succ|
        invariant Padded(g, graph) && old(graph).Keys <= graph.Keys && visited' <= graph.Keys
        invariant recStack' == recStack + {txn} && visited + {txn} <= visited'
        invariant Clean(g, visited' - recStack')
        invariant forall j :: 0 <= j < i ==> succ[j] in visited' - recStack'
      {
        var next := succ[i];
        assert Edge(g, txn, next);
        if next !in visited' {
          assert next in Nodes(g);
          JoinPaths(g, here, [txn, next]);
          assert [txn, next][1..] == [next];
          found, visited', recStack' := IsCycle(next, visited', recStack', here, g);
          if found {
            return;
          }
        }
        if next in visited' && next in recStack' {
          BackEdgeClosesCycle(g, here, next);
          found := true;
          return;
        }
      }
      CleanGrows(g, visited' - recStack', txn);
      recStack' := recStack' - {txn};
      assert recStack' == recStack;
      assert visited' - recStack' == visited' - (recStack + {txn}) + {txn};
      found := false;
    }

    /** A deadlock is reported exactly when the wait-for graph has a cycle, whatever
        order the map's entries are visited in and whether or not the loop comes across
        the entries that the search itself adds. */
    method DetectDeadlock() returns (deadlock: bool)
      modifies this
      ensures deadlock <==> HasCycle(old(graph))
      ensures Padded(old(graph), graph) && (!deadlock ==> graph.Keys == Nodes(old(graph)))
    {
      ghost var g := graph;
      var visited: set<int>, recStack: set<int> := {}, {};
      var todo: set<int> := graph.Keys;
      while todo != {}
        invariant Padded(g, graph) && visited <= graph.Keys
        invariant recStack == {} && todo <= graph.Keys
        invariant Clean(g, visited - recStack)
        invariant g.Keys - todo <= visited
        decreases Nodes(g) - visited, todo
      {
        ghost var some := ElementOf(todo);
        var txn :| txn in todo;
        todo := todo - {txn};
        if txn !in visited {
          var entries := graph.Keys;
          var found;
          found, visited, recStack := IsCycle(txn, visited, recStack, [], g);
          if found {
            return true;
          }
          assert {} <= graph.Keys - entries;
          var reached: set<int> :| reached <= graph.Keys - entries;
          todo := todo + reached;
        }
      }
      CleanEverywhere(g, visited);
      ClosedHoldsNodes(g, visited);
      return false;
    }
  }

  // ------------------------------- what a new dependency does to the verdict

  predicate NewEdge(p: seq<int>, i: int, u: int, v: int)
    requires 0 <= i < |p| - 1
  {
    p[i] == u && p[i + 1] == v
  }

  /** A stretch of a path in the grown graph that avoids the new edge is a path in
      the old one. */
  lemma OldStretch(g: map<int, seq<int>>, u: int, v: int, p: seq<int>, from: nat, to: nat)
    requires Path(Add(g, u, v), p) && from <= to < |p|
    requires forall i :: from <= i < to ==> !NewEdge(p, i, u, v)
    ensures Path(g, p[from..to + 1])
  {
    var q := p[from..to + 1];
    forall i | 0 <= i < |q| - 1 ensures Edge(g, q[i], q[i + 1]) {
      assert Edge(Add(g, u, v), p[from + i], p[from + i + 1]);
      assert !NewEdge(p, from + i, u, v);
    }
  }

  lemma {:induction false} FirstNew(p: seq<int>, u: int, v: int, k: nat) returns (first: nat)
    requires k < |p| - 1 && NewEdge(p, k, u, v)
    ensures first <= k && NewEdge(p, first, u, v)
    ensures forall i :: 0 <= i < first ==> !NewEdge(p, i, u, v)
  {
    first := k;
    if i :| 0 <= i < k && NewEdge(p, i, u, v) {
      first := FirstNew(p, u, v, i);
    }
  }

  lemma {:induction false} LastNew(p: seq<int>, u: int, v: int, k: nat) returns (last: nat)
    requires k < |p| - 1 && NewEdge(p, k, u, v)
    ensures last < |p| - 1 && NewEdge(p, last, u, v)
    ensures forall i :: last < i < |p| - 1 ==> !NewEdge(p, i, u, v)
    decreases |p| - k
  {
    last := k;
    if i :| k < i < |p| - 1 && NewEdge(p, i, u, v) {
      last := LastNew(p, u, v, i);
    }
  }

  lemma OldCycle(g: map<int, seq<int>>, u: int, v: int, p: seq<int>)
    requires Cycle(Add(g, u, v), p)
    requires forall i :: 0 <= i < |p| - 1 ==> !NewEdge(p, i, u, v)
    ensures Cycle(g, p)
  {
    OldStretch(g, u, v, p, 0, |p| - 1);
    assert p[0..|p| - 1 + 1] == p;
  }

  /** The stretch after the last use of the new edge, then the one before the first. */
  lemma CutAtNewEdge(g: map<int, seq<int>>, u: int, v: int, back: seq<int>, out: seq<int>)
    requires Path(g, back) && Path(g, out) && back[0] == v && back[|back| - 1] == out[0] && out[|out| - 1] == u
    ensures Reaches(g, v, u)
  {
    var q := back + out[1..];
    JoinPaths(g, back, out);
    assert Path(g, q) && q[0] == v && q[|q| - 1] == u;
  }

  /** A cycle of the grown graph, cut at the new edge, leads from v back to u. */
  lemma NewCycleReaches(g: map<int, seq<int>>, u: int, v: int, p: seq<int>, k: nat)
    requires Cycle(Add(g, u, v), p) && k < |p| - 1 && NewEdge(p, k, u, v)
    ensures Reaches(g, v, u)
  {
    var first := FirstNew(p, u, v, k);
    var last := LastNew(p, u, v, k);
    OldStretch(g, u, v, p, last + 1, |p| - 1);
    OldStretch(g, u, v, p, 0, first);
    CutAtNewEdge(g, u, v, p[last + 1..|p| - 1 + 1], p[0..first + 1]);
  }

  /** In a graph without deadlock, letting u wait for v creates one exactly when v
      already waits, directly or through others, for u. */
  lemma NewDependencyDeadlocksIff(g: map<int, seq<int>>, u: int, v: int)
    requires !HasCycle(g)
    ensures HasCycle(Add(g, u, v)) <==> Reaches(g, v, u)
  {
    if p :| Cycle(Add(g, u, v), p) {
      if k :| 0 <= k < |p| - 1 && NewEdge(p, k, u, v) {
        NewCycleReaches(g, u, v, p, k);
      } else {
        OldCycle(g, u, v, p);
      }
    }
    if p :| Path(g, p) && p[0] == v && p[|p| - 1] == u {
      var c := p + [v];
      forall i | 0 <= i < |c| - 1 ensures Edge(Add(g, u, v), c[i], c[i + 1]) {
        if i < |p| - 1 {
          assert Edge(g, p[i], p[i + 1]);
        }
      }
      assert Cycle(Add(g, u, v), c);
    }
  }
}
