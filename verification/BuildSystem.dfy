module BuildSystem {
  // The parallel build system: Kahn's algorithm run by worker threads that share a
  // ready queue, a condition variable and a `done` flag.
  //
  // The scheduler's critical sections are a class; the pool of workers is a state
  // machine over them in which sleeping and waking are explicit. Multiple edges
  // between the same two targets are kept, as the source keeps them.

  import opened Graphs
  import opened RefCounts
  import opened Sets

  type Graph = map<string, seq<string>>

  /** What the mutex protects, apart from the graph itself. */
  datatype Scheduler = Scheduler(indegree: map<string, int>, ready: seq<string>, active: int, processed: int, done: bool)

  /** The graph's edges run between known targets and each in-degree counts them. */
  ghost predicate Consistent(graph: Graph, indegree: map<string, int>)
  {
    && graph.Keys <= indegree.Keys
    && (forall u, v :: Edge(graph, u, v) ==> v in indegree)
    && (forall t :: t in indegree ==> indegree[t] == All(graph)[t])
  }

  /** Kahn's step: every child loses one dependency and is queued at zero. */
  function Release(indegree: map<string, int>, ready: seq<string>, children: seq<string>): (r: (map<string, int>, seq<string>))
    requires forall c :: c in children ==> c in indegree
    ensures r.0.Keys == indegree.Keys
  {
    if children == [] then (indegree, ready)
    else
      var last := |children| - 1;
      var (d, q) := Release(indegree, ready, children[..last]);
      var c := children[last];
      (d[c := d[c] - 1], if d[c] - 1 == 0 then q + [c] else q)
  }

  function Children(graph: Graph, t: string): seq<string>
  {
    if t in graph then graph[t] else []
  }

  function Take(s: Scheduler): Scheduler
    requires s.ready != []
  {
    s.(ready := s.ready[1..], active := s.active + 1)
  }

  function Finish(s: Scheduler, graph: Graph, total: int, t: string): Scheduler
    requires forall c :: c in Children(graph, t) ==> c in s.indegree
  {
    var (d, r) := Release(s.indegree, s.ready, Children(graph, t));
    var active, processed := s.active - 1, s.processed + 1;
    Scheduler(d, r, active, processed, s.done || processed == total || (r == [] && active == 0))
  }

  // ------------------------------------------------------- the critical sections

  class Builder {
    var graph: Graph
    var indegree: map<string, int>
    var ready: seq<string>
    var processed: int
    var total: int
    var active: int
    var done: bool

    function View(): Scheduler
      reads this
    {
      Scheduler(indegree, ready, active, processed, done)
    }

    constructor ()
      ensures graph == map[] && View() == Scheduler(map[], [], 0, 0, false) && Consistent(graph, indegree)
    {
      graph, indegree, ready, processed, total, active, done := map[], map[], [], 0, 0, 0, false;
    }

    method AddDependency(target: string, dependency: string)
      requires Consistent(graph, indegree)
      modifies this`graph, this`indegree
      ensures Consistent(graph, indegree)
      ensures graph == Add(old(graph), dependency, target)
      ensures indegree.Keys == old(indegree).Keys + {target, dependency}
    {
      graph := Add(graph, dependency, target);
      if target !in indegree {
        indegree := indegree[target := 0];
      }
      indegree := indegree[target := indegree[target] + 1];
      if dependency !in indegree {
        indegree := indegree[dependency := 0];
      }
      AddKeepsConsistent(old(graph), old(indegree), dependency, target, indegree);
    }

    /** The first loop of build: queue every target without dependencies, in the
        order in which the map happens to be visited. */
    method SeedQueue()
      modifies this`ready, this`total
      requires ready == []
      ensures total == |indegree|
      ensures Seeded(indegree, ready)
    {
      total := |indegree|;
      var todo := indegree.Keys;
      while todo != {}
        invariant todo <= indegree.Keys && total == |indegree|
        invariant Distinct(ready)
        invariant forall t :: t in ready <==> t in indegree && t !in todo && indegree[t] == 0
        decreases todo
      {
        var t :| t in todo;
        todo := todo - {t};
        if indegree[t] == 0 {
          ready := ready + [t];
        }
      }
    }

    method TakeTarget() returns (target: string)
      requires ready != []
      modifies this
      ensures target == old(ready)[0] && View() == Take(old(View())) && graph == old(graph) && total == old(total)
      ensures old(ready) == [target] + ready && active == old(active) + 1
      ensures indegree == old(indegree) && processed == old(processed) && done == old(done)
    {
      target := ready[0];
      ready := ready[1..];
      active := active + 1;
    }

    /** The loop over the children of a target that has been built. */
    method ReleaseChildren(children: seq<string>)
      requires forall c :: c in children ==> c in indegree
      modifies this`indegree, this`ready
      ensures (indegree, ready) == Release(old(indegree), old(ready), children)
    {
      for i := 0 to |children|
        invariant (indegree, ready) == Release(old(indegree), old(ready), children[..i])
      {
        assert children[..i + 1][..i] == children[..i];
        var child := children[i];
        indegree := indegree[child := indegree[child] - 1];
        if indegree[child] == 0 {
          ready := ready + [child];
        }
      }
      assert children[..|children|] == children;
    }

    method FinishTarget(target: string)
      requires forall c :: c in Children(graph, target) ==> c in indegree
      modifies this
      ensures graph == old(graph) && total == old(total)
      ensures View() == Finish(old(View()), old(graph), old(total), target)
      ensures old(ready) <= ready && active == old(active) - 1 && processed == old(processed) + 1
      ensures done <==> old(done) || processed == total || (ready == [] && active == 0)
    {
      ReleaseAppends(indegree, ready, Children(graph, target));
      ReleaseChildren(Children(graph, target));
      active := active - 1;
      processed := processed + 1;
      if processed == total || (ready == [] && active == 0) {
        done := true;
      }
    }
  }

  predicate Distinct(xs: seq<string>)
  {
    forall i, j :: 0 <= i < j < |xs| ==> xs[i] != xs[j]
  }

  /** The queue holds every dependency-free target once, in some order. */
  ghost predicate Seeded(indegree: map<string, int>, ready: seq<string>)
  {
    Distinct(ready) && forall t :: t in ready <==> t in indegree && indegree[t] == 0
  }

  /** Released targets queue up behind those already there. */
  lemma {:induction false} ReleaseAppends(indegree: map<string, int>, ready: seq<string>, children: seq<string>)
    requires forall c :: c in children ==> c in indegree
    ensures ready <= Release(indegree, ready, children).1
    decreases |children|
  {
    if children != [] {
      ReleaseAppends(indegree, ready, children[..|children| - 1]);
    }
  }

  lemma AddCountsOnce(graph: Graph, dependency: string, target: string)
    ensures All(Add(graph, dependency, target)) == All(graph) + multiset{target}
  {
    var children := Children(graph, dependency);
    AllOfUpdate(graph, dependency, children + [target]);
    assert multiset(children + [target]) == multiset(children) + multiset{target};
    if dependency in graph {
      AllSplits(graph, dependency);
    } else {
      assert multiset(children) == multiset{};
    }
  }

  lemma UnknownHasNoEdge(graph: Graph, indegree: map<string, int>, t: string)
    requires Consistent(graph, indegree) && t !in indegree
    ensures All(graph)[t] == 0
  {
    AllContains(graph, t);
    if u :| u in graph && t in graph[u] {
      assert Edge(graph, u, t);
      assert false;
    }
  }

  lemma AddKeepsConsistent(graph: Graph, indegree: map<string, int>, dependency: string, target: string, indegree': map<string, int>)
    requires Consistent(graph, indegree)
    requires indegree'.Keys == indegree.Keys + {target, dependency}
    requires forall t :: t in indegree' ==>
               indegree'[t] == (if t in indegree then indegree[t] else 0) + (if t == target then 1 else 0)
    ensures Consistent(Add(graph, dependency, target), indegree')
  {
    var g := Add(graph, dependency, target);
    AddCountsOnce(graph, dependency, target);
    forall t | t in indegree' ensures indegree'[t] == All(g)[t] {
      if t !in indegree {
        UnknownHasNoEdge(graph, indegree, t);
      }
    }
    forall u, v | Edge(g, u, v) ensures v in indegree' {
      AddAddsOneEdge(graph, dependency, target, u, v);
    }
  }

  // ------------------------------------------------------------- the worker pool

  /** `Checking` is about to test the wait condition under the mutex, `Asleep` is
      blocked in the condition variable. */
  datatype Worker = Checking | Asleep | Building(target: string) | Exited

  /** `started` and `finished` are history, in order. */
  datatype Pool = Pool(graph: Graph, total: int, sched: Scheduler, workers: seq<Worker>, started: seq<string>, finished: seq<string>)

  datatype Action = Step(worker: nat) | SpuriousWake(worker: nat)

  function Notified(workers: seq<Worker>): (r: seq<Worker>)
  {
    seq(|workers|, i requires 0 <= i < |workers| => if workers[i].Asleep? then Checking else workers[i])
  }

  predicate Enabled(p: Pool, a: Action)
  {
    match a
    case Step(w) =>
      && w < |p.workers|
      && match p.workers[w] {
           case Checking => true
           case Building(t) => forall c :: c in Children(p.graph, t) ==> c in p.sched.indegree
           case _ => false
         }
    case SpuriousWake(w) => w < |p.workers| && p.workers[w].Asleep?
  }

  function Do(p: Pool, a: Action): Pool
    requires Enabled(p, a)
  {
    var w := a.worker;
    match a
    case SpuriousWake(_) => p.(workers := p.workers[w := Checking])
    case Step(_) =>
      match p.workers[w]
      case Building(t) =>
        p.(sched := Finish(p.sched, p.graph, p.total, t),
           workers := Notified(p.workers[w := Checking]),
           finished := p.finished + [t])
      case _ =>
        if p.sched.ready != [] then
          var t := p.sched.ready[0];
          p.(sched := Take(p.sched), workers := p.workers[w := Building(t)], started := p.started + [t])
        else if p.sched.done then p.(workers := p.workers[w := Exited])
        else p.(workers := p.workers[w := Asleep])
  }

  /** The state in which build has started its threads. */
  ghost predicate Init(p: Pool)
  {
    && Consistent(p.graph, p.sched.indegree)
    && p.total == |p.sched.indegree|
    && Seeded(p.sched.indegree, p.sched.ready)
    && p.sched.active == 0 && p.sched.processed == 0 && !p.sched.done
    && (forall w :: 0 <= w < |p.workers| ==> p.workers[w] == Checking)
    && p.started == [] && p.finished == []
  }

  ghost predicate HasSource(p: Pool)
  {
    exists t :: t in p.sched.indegree && p.sched.indegree[t] == 0
  }

  // ------------------------------------------------------------------ invariant

  function Elems(xs: seq<string>): set<string>
  {
    set x | x in xs
  }

  /** In-degrees count the edges from unfinished targets; the queue is what can be
      started and has not been. */
  ghost predicate CountsOk(p: Pool)
  {
    var s := p.sched;
    && p.graph.Keys <= s.indegree.Keys
    && (forall u, v :: Edge(p.graph, u, v) ==> v in s.indegree)
    && p.total == |s.indegree|
    && (forall t :: t in s.indegree ==> s.indegree[t] == All(p.graph - Elems(p.finished))[t])
    && Distinct(s.ready) && Distinct(p.started) && Distinct(p.finished)
    && (forall t :: t in p.started ==> t in s.indegree && s.indegree[t] == 0)
    && (forall t :: t in s.ready <==> t in s.indegree && s.indegree[t] == 0 && t !in p.started)
    && (forall t :: t in p.finished ==> t in p.started)
    && s.processed == |p.finished| && s.active == |p.started| - |p.finished|
  }

  /** Targets in progress are exactly those the workers are building. */
  ghost predicate WorkersOk(p: Pool)
  {
    && (forall w :: 0 <= w < |p.workers| && p.workers[w].Building? ==>
          p.workers[w].target in p.started && p.workers[w].target !in p.finished)
    && (forall w, x :: 0 <= w < x < |p.workers| && p.workers[w].Building? && p.workers[x].Building? ==>
          p.workers[w].target != p.workers[x].target)
    && (forall t :: t in p.started && t !in p.finished ==> Busy(p, t))
    && (forall w :: 0 <= w < |p.workers| && p.workers[w].Asleep? ==> p.sched.ready == [] && !p.sched.done)
    && (forall w :: 0 <= w < |p.workers| && p.workers[w].Exited? ==> p.sched.done)
  }

  ghost predicate Busy(p: Pool, t: string)
  {
    exists w :: 0 <= w < |p.workers| && p.workers[w] == Building(t)
  }

  /** Every finished target was preceded by all its dependencies. */
  ghost predicate InOrder(p: Pool)
  {
    forall i, u :: 0 <= i < |p.finished| && Edge(p.graph, u, p.finished[i]) ==> u in p.finished[..i]
  }

  ghost predicate DoneOk(p: Pool)
  {
    p.sched.done ==> p.sched.ready == [] && forall t :: t in p.started ==> t in p.finished
  }

  ghost predicate Inv(p: Pool)
  {
    CountsOk(p) && WorkersOk(p) && InOrder(p) && DoneOk(p)
  }

  /** A target whose in-degree is zero has no unfinished dependency. */
  lemma ZeroMeansDependenciesFinished(p: Pool, t: string, u: string)
    requires CountsOk(p) && t in p.sched.indegree && p.sched.indegree[t] == 0 && Edge(p.graph, u, t)
    ensures u in p.finished
  {
    var rest := p.graph - Elems(p.finished);
    if u !in p.finished {
      AllCounts(rest, u, t);
    }
  }

  /** Conversely, a target that still waits has an unfinished dependency. */
  lemma WaitingHasUnfinishedDependency(p: Pool, t: string) returns (u: string)
    requires CountsOk(p) && t in p.sched.indegree && p.sched.indegree[t] != 0
    ensures Edge(p.graph, u, t) && u in p.sched.indegree && u !in p.finished
  {
    var rest := p.graph - Elems(p.finished);
    AllContains(rest, t);
    u :| u in rest && t in rest[u];
  }

  /** What Release computes: in-degrees drop by the number of edges, and exactly the
      children that reach zero are queued, once each. */
  lemma {:induction false} ReleaseEffect(indegree: map<string, int>, ready: seq<string>, children: seq<string>)
    requires forall c :: c in children ==> c in indegree && indegree[c] >= multiset(children)[c] && c !in ready
    requires Distinct(ready)
    ensures var (d, r) := Release(indegree, ready, children);
            && d.Keys == indegree.Keys
            && (forall t :: t in indegree ==> d[t] == indegree[t] - multiset(children)[t])
            && Distinct(r)
            && (forall t :: t in r <==> t in ready || (t in children && d[t] == 0))
  {
    if children != [] {
      var last := |children| - 1;
      var front, c := children[..last], children[last];
      assert children == front + [c];
      assert multiset(children) == multiset(front) + multiset{c};
      ReleaseEffect(indegree, ready, front);
      var (d, r) := Release(indegree, ready, front);
      assert d[c] == indegree[c] - multiset(front)[c] >= 1;
      assert c !in r;
      forall t ensures t in children <==> t in front || t == c {
      }
    }
  }

  lemma TakeKeepsCounts(p: Pool, w: nat)
    requires CountsOk(p) && w < |p.workers| && p.workers[w].Checking? && p.sched.ready != []
    ensures CountsOk(Do(p, Step(w)))
  {
    var q := Do(p, Step(w));
    var t := p.sched.ready[0];
    assert t in p.sched.ready;
    MoveHead(p.sched.ready, p.started);
    assert q.started == p.started + [t] && q.sched.ready == p.sched.ready[1..];
  }

  lemma MoveHead(from: seq<string>, into: seq<string>)
    requires from != [] && Distinct(from) && Distinct(into) && from[0] !in into
    ensures Distinct(from[1..]) && Distinct(into + [from[0]])
    ensures forall x :: x in from[1..] <==> x in from && x != from[0]
    ensures forall x :: x in into + [from[0]] <==> x in into || x == from[0]
  {
    assert from == [from[0]] + from[1..];
  }

  lemma TakeKeepsWorkers(p: Pool, w: nat)
    requires WorkersOk(p) && w < |p.workers| && p.workers[w].Checking? && p.sched.ready != []
    requires p.sched.ready[0] !in p.started && p.sched.ready[0] !in p.finished
    ensures WorkersOk(Do(p, Step(w)))
  {
    var q := Do(p, Step(w));
    var t := p.sched.ready[0];
    assert q.started == p.started + [t];
    assert q.workers[w] == Building(t);
    forall x | x in q.started && x !in q.finished ensures Busy(q, x) {
      if x != t {
        assert Busy(p, x);
        var v :| 0 <= v < |p.workers| && p.workers[v] == Building(x);
        assert q.workers[v] == Building(x);
      }
    }
  }

  lemma StepTakesTarget(p: Pool, w: nat)
    requires Inv(p) && w < |p.workers| && p.workers[w].Checking? && p.sched.ready != []
    ensures Inv(Do(p, Step(w)))
  {
    HeadIsElement(p.sched.ready);
    TakeKeepsCounts(p, w);
    TakeKeepsWorkers(p, w);
  }

  lemma StepWithoutTarget(p: Pool, w: nat)
    requires Inv(p) && Enabled(p, Step(w)) && p.workers[w].Checking? && p.sched.ready == []
    ensures Inv(Do(p, Step(w)))
  {
    var q := Do(p, Step(w));
    forall x | x in q.started && x !in q.finished ensures Busy(q, x) {
      assert Busy(p, x);
      var v :| 0 <= v < |p.workers| && p.workers[v] == Building(x);
      assert q.workers[v] == Building(x);
    }
  }

  lemma FinishedCounts(p: Pool, t: string)
    requires CountsOk(p) && t in p.started && t !in p.finished
    ensures var rest := All(p.graph - Elems(p.finished));
            rest == multiset(Children(p.graph, t)) + All(p.graph - Elems(p.finished + [t]))
  {
    var rest := p.graph - Elems(p.finished);
    assert Elems(p.finished + [t]) == Elems(p.finished) + {t};
    assert p.graph - Elems(p.finished + [t]) == rest - {t};
    if t in p.graph {
      AllSplits(rest, t);
    } else {
      assert rest - {t} == rest;
    }
  }

  /** The children of a target in progress still count the edge from it. */
  lemma ChildrenWait(p: Pool, t: string)
    requires CountsOk(p) && t in p.started && t !in p.finished
    ensures var children := Children(p.graph, t);
            forall c :: c in children ==>
              c in p.sched.indegree && p.sched.indegree[c] >= multiset(children)[c] && p.sched.indegree[c] > 0
  {
    var children := Children(p.graph, t);
    FinishedCounts(p, t);
    forall c | c in children
      ensures c in p.sched.indegree && p.sched.indegree[c] >= multiset(children)[c] && p.sched.indegree[c] > 0
    {
      assert Edge(p.graph, t, c) && c in multiset(children);
    }
  }

  /** In-degrees after target t has finished. */
  lemma FinishIndegrees(p: Pool, t: string)
    requires CountsOk(p) && t in p.started && t !in p.finished
    ensures forall c :: c in Children(p.graph, t) ==> c in p.sched.indegree
    ensures var d := Release(p.sched.indegree, p.sched.ready, Children(p.graph, t)).0;
            && (forall x :: x in d ==> d[x] == All(p.graph - Elems(p.finished + [t]))[x])
            && (forall x :: x in p.started ==> d[x] == 0)
  {
    var children := Children(p.graph, t);
    ChildrenWait(p, t);
    ReleaseEffect(p.sched.indegree, p.sched.ready, children);
    FinishedCounts(p, t);
    forall x | x in p.started ensures x !in multiset(children) {
    }
  }

  /** The queue after target t has finished. */
  lemma FinishReady(p: Pool, t: string)
    requires CountsOk(p) && t in p.started && t !in p.finished
    ensures forall c :: c in Children(p.graph, t) ==> c in p.sched.indegree
    ensures var (d, r) := Release(p.sched.indegree, p.sched.ready, Children(p.graph, t));
            && Distinct(r)
            && (forall x :: x in r <==> x in d && d[x] == 0 && x !in p.started)
  {
    var children := Children(p.graph, t);
    ChildrenWait(p, t);
    ReleaseEffect(p.sched.indegree, p.sched.ready, children);
    var (d, r) := Release(p.sched.indegree, p.sched.ready, children);
    forall x ensures x in r <==> x in d && d[x] == 0 && x !in p.started {
      assert x in children <==> x in multiset(children);
    }
  }

  lemma FinishKeepsCounts(p: Pool, w: nat)
    requires Inv(p) && w < |p.workers| && p.workers[w].Building?
    ensures Enabled(p, Step(w)) && CountsOk(Do(p, Step(w)))
  {
    var t := p.workers[w].target;
    FinishIndegrees(p, t);
    FinishReady(p, t);
    var q := Do(p, Step(w));
    assert forall x :: x in q.finished <==> x in p.finished || x == t;
  }

  lemma {:induction false} DistinctCardinality(xs: seq<string>)
    requires Distinct(xs)
    ensures |Elems(xs)| == |xs|
  {
    if xs != [] {
      var last := |xs| - 1;
      DistinctCardinality(xs[..last]);
      assert Elems(xs) == Elems(xs[..last]) + {xs[last]};
    }
  }

  /** Equally many started and finished: nothing is in progress. */
  lemma NothingInProgress(p: Pool)
    requires CountsOk(p) && p.sched.active == 0
    ensures forall t :: t in p.started ==> t in p.finished
  {
    DistinctCardinality(p.started);
    DistinctCardinality(p.finished);
    SubsetOfEqualSize(Elems(p.finished), Elems(p.started));
    forall t | t in p.started ensures t in p.finished {
      assert t in Elems(p.started);
    }
  }

  lemma HeadIsElement(xs: seq<string>)
    requires xs != []
    ensures xs[0] in xs
  {
  }

  /** All targets processed: nothing is queued or in progress. */
  lemma AllProcessed(p: Pool)
    requires CountsOk(p) && p.sched.processed == p.total
    ensures p.sched.ready == [] && forall t :: t in p.sched.indegree ==> t in p.finished
  {
    DistinctCardinality(p.finished);
    SubsetOfEqualSize(Elems(p.finished), p.sched.indegree.Keys);
    forall t | t in p.sched.indegree ensures t in p.finished {
      assert t in Elems(p.finished);
    }
    if p.sched.ready != [] {
      HeadIsElement(p.sched.ready);
    }
  }

  lemma FinishKeepsOrder(p: Pool, w: nat)
    requires Inv(p) && w < |p.workers| && p.workers[w].Building? && Enabled(p, Step(w))
    ensures InOrder(Do(p, Step(w)))
  {
    var q := Do(p, Step(w));
    forall i, u | 0 <= i < |q.finished| && Edge(q.graph, u, q.finished[i]) ensures u in q.finished[..i] {
      if i < |p.finished| {
        assert Edge(p.graph, u, p.finished[i]);
        assert q.finished[..i] == p.finished[..i];
      } else {
        ZeroMeansDependenciesFinished(p, q.finished[i], u);
        assert q.finished[..i] == p.finished;
      }
    }
  }

  lemma FinishKeepsWorkers(p: Pool, w: nat)
    requires WorkersOk(p) && DoneOk(p) && w < |p.workers| && p.workers[w].Building? && Enabled(p, Step(w))
    ensures WorkersOk(Do(p, Step(w)))
  {
    var q := Do(p, Step(w));
    assert forall v :: 0 <= v < |q.workers| ==> !q.workers[v].Asleep? && (v != w ==> q.workers[v].Building? ==> q.workers[v] == p.workers[v]);
    forall x | x in q.started && x !in q.finished ensures Busy(q, x) {
      assert Busy(p, x);
      var v :| 0 <= v < |p.workers| && p.workers[v] == Building(x);
      assert v != w;
      assert q.workers[v] == Building(x);
    }
  }

  lemma StepFinishesTarget(p: Pool, w: nat)
    requires Inv(p) && w < |p.workers| && p.workers[w].Building?
    ensures Enabled(p, Step(w)) && Inv(Do(p, Step(w)))
  {
    FinishKeepsCounts(p, w);
    FinishKeepsOrder(p, w);
    FinishKeepsWorkers(p, w);
    var q := Do(p, Step(w));
    assert !p.sched.done;
    if q.sched.active == 0 {
      NothingInProgress(q);
    }
    if q.sched.processed == q.total {
      AllProcessed(q);
    }
  }

  lemma DoKeepsInv(p: Pool, a: Action)
    requires Inv(p) && Enabled(p, a)
    ensures Inv(Do(p, a))
  {
    match a
    case SpuriousWake(w) =>
      var q := Do(p, a);
      forall x | x in q.started && x !in q.finished ensures Busy(q, x) {
        assert Busy(p, x);
        var v :| 0 <= v < |p.workers| && p.workers[v] == Building(x);
        assert q.workers[v] == Building(x);
      }
    case Step(w) =>
      if p.workers[w].Building? {
        StepFinishesTarget(p, w);
      } else if p.sched.ready != [] {
        StepTakesTarget(p, w);
      } else {
        StepWithoutTarget(p, w);
      }
  }

  /** Only a sleeping worker, or one that has left, has no step of its own; and a sleeping
      one can wake for no reason. */
  lemma NeverBlocked(p: Pool, w: nat)
    requires Inv(p) && w < |p.workers|
    ensures p.workers[w].Checking? || p.workers[w].Building? ==> Enabled(p, Step(w))
    ensures p.workers[w].Asleep? ==> Enabled(p, SpuriousWake(w))
  {
    if p.workers[w].Building? {
      StepFinishesTarget(p, w);
    }
  }

  lemma InitInv(p: Pool)
    requires Init(p)
    ensures Inv(p)
  {
    assert Elems(p.finished) == {};
    assert p.graph - Elems(p.finished) == p.graph;
  }

  // ----------------------------------------------------------------- whole runs

  predicate Playable(p: Pool, run: seq<Action>)
    decreases |run|
  {
    run == [] || (Enabled(p, run[0]) && Playable(Do(p, run[0]), run[1..]))
  }

  function Final(p: Pool, run: seq<Action>): Pool
    requires Playable(p, run)
    decreases |run|
  {
    if run == [] then p else Final(Do(p, run[0]), run[1..])
  }

  lemma {:induction false} RunKeepsInv(p: Pool, run: seq<Action>)
    requires Inv(p) && Playable(p, run)
    ensures Inv(Final(p, run))
    ensures Final(p, run).graph == p.graph && Final(p, run).sched.indegree.Keys == p.sched.indegree.Keys
    ensures |Final(p, run).workers| == |p.workers| && Final(p, run).total == p.total
    decreases |run|
  {
    if run != [] {
      DoKeepsInv(p, run[0]);
      RunKeepsInv(Do(p, run[0]), run[1..]);
    }
  }

  /** In every interleaving each target is started at most once, finishes at most
      once, and starts only when all its dependencies have finished. */
  lemma BuiltOnceInOrder(p: Pool, run: seq<Action>)
    requires Init(p) && Playable(p, run)
    ensures var q := Final(p, run);
            && Distinct(q.started) && Distinct(q.finished)
            && (forall t, u :: t in q.started && Edge(q.graph, u, t) ==> u in q.finished)
            && InOrder(q)
  {
    InitInv(p);
    RunKeepsInv(p, run);
    var q := Final(p, run);
    forall t, u | t in q.started && Edge(q.graph, u, t) ensures u in q.finished {
      ZeroMeansDependenciesFinished(q, t, u);
    }
  }

  // ---------------------------------------------------------------- termination

  function CountChecking(workers: seq<Worker>): nat
  {
    if workers == [] then 0
    else (if workers[0].Checking? then 1 else 0) + CountChecking(workers[1..])
  }

  lemma {:induction false} CountCheckingBound(workers: seq<Worker>)
    ensures CountChecking(workers) <= |workers|
  {
    if workers != [] {
      CountCheckingBound(workers[1..]);
    }
  }

  lemma {:induction false} CountCheckingUpdate(workers: seq<Worker>, w: nat, x: Worker)
    requires w < |workers|
    ensures CountChecking(workers[w := x]) == CountChecking(workers)
              - (if workers[w].Checking? then 1 else 0) + (if x.Checking? then 1 else 0)
  {
    if w == 0 {
      assert workers[w := x][1..] == workers[1..];
    } else {
      CountCheckingUpdate(workers[1..], w - 1, x);
      assert workers[w := x][1..] == workers[1..][w - 1 := x];
    }
  }

  /** Work left: each target has to be started and finished, and between two
      finishes each worker goes to sleep or leaves at most once. */
  function Work(p: Pool): int
  {
    (|p.workers| + 1) * (2 * p.total - |p.started| - |p.finished|) + CountChecking(p.workers)
  }

  lemma ProductIsNatural(a: int, b: int)
    requires a >= 0 && b >= 0
    ensures a * b >= 0
  {
  }

  lemma WorkIsNatural(p: Pool)
    requires Inv(p)
    ensures Work(p) >= 0
  {
    DistinctCardinality(p.started);
    DistinctCardinality(p.finished);
    SubsetSmaller(Elems(p.started), p.sched.indegree.Keys);
    SubsetSmaller(Elems(p.finished), p.sched.indegree.Keys);
    assert |p.sched.indegree.Keys| == p.total;
    ProductIsNatural(|p.workers| + 1, 2 * p.total - |p.started| - |p.finished|);
  }

  lemma LessWork(n: nat, rest: int, a: nat, b: nat)
    requires b <= n
    ensures (n + 1) * (rest - 1) + b < (n + 1) * rest + a
  {
    assert (n + 1) * (rest - 1) == (n + 1) * rest - (n + 1);
  }

  /** Taking or finishing a target uses up work whatever the workers then do. */
  lemma TargetStepUsesWork(p: Pool, w: nat)
    requires Enabled(p, Step(w)) && (p.workers[w].Building? || p.sched.ready != [])
    ensures Work(Do(p, Step(w))) < Work(p)
  {
    var q := Do(p, Step(w));
    CountCheckingBound(q.workers);
    LessWork(|p.workers|, 2 * p.total - |p.started| - |p.finished|, CountChecking(p.workers), CountChecking(q.workers));
  }

  /** Every step but a spurious wake-up uses up work; a spurious wake-up adds one. */
  lemma StepUsesWork(p: Pool, a: Action)
    requires Enabled(p, a)
    ensures a.Step? ==> Work(Do(p, a)) < Work(p)
    ensures a.SpuriousWake? ==> Work(Do(p, a)) == Work(p) + 1
  {
    var w := a.worker;
    if a.Step? && (p.workers[w].Building? || p.sched.ready != []) {
      TargetStepUsesWork(p, w);
    } else {
      CountCheckingUpdate(p.workers, w, Do(p, a).workers[w]);
    }
  }

  function SpuriousWakes(run: seq<Action>): nat
  {
    if run == [] then 0 else (if run[0].SpuriousWake? then 1 else 0) + SpuriousWakes(run[1..])
  }

  /** No run goes on for ever: apart from spurious wake-ups, and one more step for
      each of those, its length is bounded by the work there was to begin with. */
  lemma {:induction false} RunsAreBounded(p: Pool, run: seq<Action>)
    requires Inv(p) && Playable(p, run)
    ensures |run| <= Work(p) + 2 * SpuriousWakes(run)
    decreases |run|
  {
    if run == [] {
      WorkIsNatural(p);
    } else {
      DoKeepsInv(p, run[0]);
      StepUsesWork(p, run[0]);
      RunsAreBounded(Do(p, run[0]), run[1..]);
    }
  }

  // ------------------------------------------------------------------ completion

  /** While the build is not done there is something to take or to finish. */
  ghost predicate Live(p: Pool)
  {
    !p.sched.done ==> p.sched.ready != [] || p.sched.active > 0
  }

  lemma ActiveIsNatural(p: Pool)
    requires CountsOk(p)
    ensures p.sched.active >= 0
  {
    DistinctCardinality(p.started);
    DistinctCardinality(p.finished);
    SubsetSmaller(Elems(p.finished), Elems(p.started));
  }

  lemma {:induction false} RunKeepsLive(p: Pool, run: seq<Action>)
    requires Inv(p) && Live(p) && Playable(p, run)
    ensures Live(Final(p, run))
    decreases |run|
  {
    if run != [] {
      DoKeepsInv(p, run[0]);
      ActiveIsNatural(p);
      ActiveIsNatural(Do(p, run[0]));
      RunKeepsLive(Do(p, run[0]), run[1..]);
    }
  }

  /** No worker can move any more except by a spurious wake-up. */
  ghost predicate Stuck(p: Pool)
  {
    forall w: nat :: w < |p.workers| ==> !Enabled(p, Step(w))
  }

  lemma StuckMeansDone(p: Pool)
    requires Inv(p) && Live(p) && Stuck(p) && |p.workers| > 0
    ensures p.sched.done && forall w :: 0 <= w < |p.workers| ==> p.workers[w].Exited?
  {
    forall w | 0 <= w < |p.workers| ensures p.workers[w].Exited? {
      assert !Enabled(p, Step(w));
      if p.workers[w].Building? {
        StepFinishesTarget(p, w);
      }
      if p.workers[w].Asleep? {
        var t := SomethingInProgress(p);
        assert Busy(p, t);
        var v: nat :| v < |p.workers| && p.workers[v] == Building(t);
        StepFinishesTarget(p, v);
      }
    }
    assert p.workers[0].Exited?;
  }

  lemma SomethingInProgress(p: Pool) returns (t: string)
    requires CountsOk(p) && p.sched.active > 0
    ensures t in p.started && t !in p.finished
  {
    DistinctCardinality(p.started);
    DistinctCardinality(p.finished);
    if Elems(p.started) <= Elems(p.finished) {
      SubsetSmaller(Elems(p.started), Elems(p.finished));
    }
    t :| t in Elems(p.started) && t !in Elems(p.finished);
  }

  ghost function Position(xs: seq<string>, x: string): int
  {
    if x in xs then var i :| 0 <= i < |xs| && xs[i] == x; i else -1
  }

  lemma AllFinishedIsAcyclic(p: Pool)
    requires Inv(p) && p.sched.processed == p.total
    ensures !HasCycle(p.graph)
  {
    AllProcessed(p);
    var rank := (x: string) => Position(p.finished, x);
    forall u, v | Edge(p.graph, u, v) ensures rank(u) < rank(v) {
      assert p.finished[rank(v)] == v;
      assert u in p.finished[..rank(v)];
      var i :| 0 <= i < rank(v) && p.finished[i] == u;
      assert p.finished[rank(u)] == u;
      assert rank(u) == i;
    }
    RankedIsAcyclic(p.graph, rank);
  }

  lemma SomethingUnfinished(p: Pool) returns (t: string)
    requires CountsOk(p) && p.sched.processed != p.total
    ensures t in p.sched.indegree && t !in p.finished
  {
    DistinctCardinality(p.finished);
    SubsetSmaller(Elems(p.finished), p.sched.indegree.Keys);
    if p.sched.indegree.Keys <= Elems(p.finished) {
      SubsetSmaller(p.sched.indegree.Keys, Elems(p.finished));
    }
    t :| t in p.sched.indegree && t !in Elems(p.finished);
  }

  lemma UnfinishedIsCyclic(p: Pool)
    requires Inv(p) && p.sched.done && p.sched.processed != p.total
    ensures HasCycle(p.graph)
  {
    var left := set t | t in p.sched.indegree && t !in p.finished;
    var t := SomethingUnfinished(p);
    assert t in left;
    forall v | v in left ensures HasPredecessor(p.graph, left, v) {
      assert v !in p.started;
      assert v !in p.sched.ready;
      var u := WaitingHasUnfinishedDependency(p, v);
      assert u in left && Edge(p.graph, u, v);
    }
    NoSourceHasCycle(p.graph, left);
  }

  /** With a dependency-free target and at least one worker, every run that cannot go
      on has set `done` and let every worker leave; the verdict "all targets
      processed" is then given exactly for acyclic graphs, and in that case every
      target was built. */
  lemma BuildCompletes(p: Pool, run: seq<Action>)
    requires Init(p) && HasSource(p) && |p.workers| > 0
    requires Playable(p, run) && Stuck(Final(p, run))
    ensures var q := Final(p, run);
            && q.sched.done
            && (forall w :: 0 <= w < |q.workers| ==> q.workers[w].Exited?)
            && (q.sched.processed == q.total <==> !HasCycle(p.graph))
            && (!HasCycle(p.graph) ==> forall t :: t in p.sched.indegree ==> t in q.finished)
  {
    InitInv(p);
    RunKeepsInv(p, run);
    var source :| source in p.sched.indegree && p.sched.indegree[source] == 0;
    assert source in p.sched.ready;
    RunKeepsLive(p, run);
    var q := Final(p, run);
    StuckMeansDone(q);
    if q.sched.processed == q.total {
      AllFinishedIsAcyclic(q);
      AllProcessed(q);
    } else {
      UnfinishedIsCyclic(q);
    }
  }

  /** Nobody has ever found anything to do. */
  ghost predicate Waiting(p: Pool)
  {
    && p.sched.ready == [] && !p.sched.done && p.started == [] && p.finished == []
    && forall w :: 0 <= w < |p.workers| ==> p.workers[w] == Checking || p.workers[w] == Asleep
  }

  lemma {:induction false} RunKeepsWaiting(p: Pool, run: seq<Action>)
    requires Waiting(p) && Playable(p, run)
    ensures Waiting(Final(p, run))
    decreases |run|
  {
    if run != [] {
      RunKeepsWaiting(Do(p, run[0]), run[1..]);
    }
  }

  /** The condition on the graph is exact: without a dependency-free target no run
      ever sets `done`, builds anything or lets a worker leave. */
  lemma WithoutSourceNeverDone(p: Pool, run: seq<Action>)
    requires Init(p) && !HasSource(p) && Playable(p, run)
    ensures Waiting(Final(p, run))
  {
    if p.sched.ready != [] {
      HeadIsElement(p.sched.ready);
    }
    RunKeepsWaiting(p, run);
  }

  /** The verdict printed for a cycle: the build has ended with targets left over. */
  predicate ReportsCycle(p: Pool)
  {
    p.sched.done && p.sched.processed != p.total
  }

  /** A run that cannot go on has ended the build if and only if some target had no
      dependencies; so a cyclic graph is reported exactly under that condition. */
  lemma CycleReportedIff(p: Pool, run: seq<Action>)
    requires Init(p) && |p.workers| > 0 && Playable(p, run) && Stuck(Final(p, run))
    ensures Final(p, run).sched.done <==> HasSource(p)
    ensures ReportsCycle(Final(p, run)) <==> HasCycle(p.graph) && HasSource(p)
  {
    if HasSource(p) {
      BuildCompletes(p, run);
    } else {
      WithoutSourceNeverDone(p, run);
    }
  }

  /** A target that depends on itself: a cycle that no run ever reports. */
  lemma SelfDependencyHangs(p: Pool, run: seq<Action>)
    requires p == Pool(map["a" := ["a"]], 1, Scheduler(map["a" := 1], [], 0, 0, false), [Checking], [], [])
    requires Playable(p, run)
    ensures Init(p) && HasCycle(p.graph) && Waiting(Final(p, run)) && !ReportsCycle(Final(p, run))
  {
    SelfEdgeCounts(p.graph);
    assert Consistent(p.graph, p.sched.indegree);
    assert Cycle(p.graph, ["a", "a"]);
    WithoutSourceNeverDone(p, run);
  }

  lemma SelfEdgeCounts(graph: Graph)
    requires graph == map["a" := ["a"]]
    ensures All(graph) == multiset{"a"}
  {
    var none: Graph := map[];
    AllOfUpdate(none, "a", ["a"]);
    assert graph == none["a" := ["a"]];
  }
}
