/** Directed graphs as adjacency lists, shared by the deadlock detector and the
    build scheduler. A node that is no key of the map has no outgoing edge. */
module Graphs {

  predicate Edge<V(==)>(g: map<V, seq<V>>, u: V, v: V)
  {
    u in g && v in g[u]
  }

  predicate Path<V(==)>(g: map<V, seq<V>>, p: seq<V>)
  {
    |p| > 0 && forall i :: 0 <= i < |p| - 1 ==> Edge(g, p[i], p[i + 1])
  }

  predicate Cycle<V(==)>(g: map<V, seq<V>>, p: seq<V>)
  {
    |p| > 1 && Path(g, p) && p[0] == p[|p| - 1]
  }

  ghost predicate HasCycle<V(!new)>(g: map<V, seq<V>>)
  {
    exists p :: Cycle(g, p)
  }

  ghost predicate Reaches<V(!new)>(g: map<V, seq<V>>, u: V, v: V)
  {
    exists p :: Path(g, p) && p[0] == u && p[|p| - 1] == v
  }

  function Add<V(==)>(g: map<V, seq<V>>, u: V, v: V): map<V, seq<V>>
  {
    g[u := (if u in g then g[u] else []) + [v]]
  }

  lemma AddAddsOneEdge<V>(g: map<V, seq<V>>, u: V, v: V, x: V, y: V)
    ensures Edge(Add(g, u, v), x, y) <==> Edge(g, x, y) || (x == u && y == v)
  {
  }

  lemma JoinPaths<V>(g: map<V, seq<V>>, p: seq<V>, q: seq<V>)
    requires Path(g, p) && Path(g, q) && p[|p| - 1] == q[0]
    ensures Path(g, p + q[1..])
  {
    var r := p + q[1..];
    forall i | 0 <= i < |r| - 1 ensures Edge(g, r[i], r[i + 1]) {
      if i < |p| - 1 {
        assert Edge(g, p[i], p[i + 1]);
      } else {
        assert Edge(g, q[i - |p| + 1], q[i - |p| + 1 + 1]);
      }
    }
  }

  ghost predicate Closed<V(!new)>(g: map<V, seq<V>>, s: set<V>)
  {
    forall u, v :: u in s && Edge(g, u, v) ==> v in s
  }

  lemma {:induction false} PathStaysInside<V(!new)>(g: map<V, seq<V>>, s: set<V>, p: seq<V>, i: nat)
    requires Closed(g, s) && Path(g, p) && i < |p| && p[0] in s
    ensures p[i] in s
  {
    if i > 0 {
      PathStaysInside(g, s, p, i - 1);
      assert Edge(g, p[i - 1], p[i - 1 + 1]);
    }
  }

  /** If every edge goes up in rank there is no cycle. */
  lemma {:induction false} RankRises<V(!new)>(g: map<V, seq<V>>, rank: V -> int, p: seq<V>, i: nat)
    requires forall u, v :: Edge(g, u, v) ==> rank(u) < rank(v)
    requires Path(g, p) && 0 < i < |p|
    ensures rank(p[0]) < rank(p[i])
  {
    assert Edge(g, p[i - 1], p[i - 1 + 1]);
    if i > 1 {
      RankRises(g, rank, p, i - 1);
    }
  }

  lemma RankedIsAcyclic<V(!new)>(g: map<V, seq<V>>, rank: V -> int)
    requires forall u, v :: Edge(g, u, v) ==> rank(u) < rank(v)
    ensures !HasCycle(g)
  {
    forall p | Cycle(g, p) ensures false {
      RankRises(g, rank, p, |p| - 1);
    }
  }

  lemma {:induction false} Pigeonhole<V>(p: seq<V>, s: set<V>)
    requires |p| > |s| && forall i :: 0 <= i < |p| ==> p[i] in s
    ensures exists i, j :: 0 <= i < j < |p| && p[i] == p[j]
  {
    var last := p[|p| - 1];
    if j :| 0 <= j < |p| - 1 && p[j] == last {
    } else {
      Pigeonhole(p[..|p| - 1], s - {last});
    }
  }

  ghost predicate HasPredecessor<V>(g: map<V, seq<V>>, s: set<V>, v: V)
  {
    exists u :: u in s && Edge(g, u, v)
  }

  /** Every node of s has a predecessor in s. */
  ghost predicate NoSource<V>(g: map<V, seq<V>>, s: set<V>)
  {
    forall v :: v in s ==> HasPredecessor(g, s, v)
  }

  lemma {:induction false} BackwardWalk<V(!new)>(g: map<V, seq<V>>, s: set<V>, n: nat) returns (p: seq<V>)
    requires s != {} && NoSource(g, s)
    ensures |p| == n + 1 && Path(g, p) && forall i :: 0 <= i < |p| ==> p[i] in s
  {
    if n == 0 {
      var v :| v in s;
      p := [v];
    } else {
      var q := BackwardWalk(g, s, n - 1);
      assert HasPredecessor(g, s, q[0]);
      var u :| u in s && Edge(g, u, q[0]);
      p := [u] + q;
    }
  }

  lemma RepeatIsCycle<V(!new)>(g: map<V, seq<V>>, p: seq<V>, i: nat, j: nat)
    requires Path(g, p) && i < j < |p| && p[i] == p[j]
    ensures Cycle(g, p[i..j + 1])
  {
    var c := p[i..j + 1];
    forall k | 0 <= k < |c| - 1 ensures Edge(g, c[k], c[k + 1]) {
      assert Edge(g, p[i + k], p[i + k + 1]);
    }
  }

  /** A non-empty finite set in which every node has a predecessor holds a cycle. */
  lemma NoSourceHasCycle<V(!new)>(g: map<V, seq<V>>, s: set<V>)
    requires s != {} && NoSource(g, s)
    ensures HasCycle(g)
  {
    var p := BackwardWalk(g, s, |s|);
    Pigeonhole(p, s);
    var i, j :| 0 <= i < j < |p| && p[i] == p[j];
    RepeatIsCycle(g, p, i, j);
  }
}
