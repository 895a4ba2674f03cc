module LockFreeStack {
  // The lock-free stack: compare-and-swap push and pop by any number of threads,
  // as a state machine over single atomic accesses to `head` and to nodes.
  //
  // Memory is explicit. Nodes are allocated and never freed, and a reference is
  // never handed out twice. A weak compare-and-swap may fail although the
  // comparison holds.

  import opened Sets

  type Ref = nat
  const NULL: Ref := 0

  datatype Node<T> = Node(val: T, next: Ref)

  /** Where a thread stands. `Linking` and `Pushing` own a node that is not yet
      published; `Loaded` has read head, `Swapping` also that node's next field;
      `Won` has swung head past `node` and has yet to read its value. The value
      beside `node` in `Won` is history: the top of the stack at that moment. */
  datatype Thread<T> =
    | Idle
    | Linking(node: Ref, arg: T)
    | Pushing(node: Ref, arg: T)
    | Loaded(node: Ref)
    | Swapping(node: Ref, next: Ref)
    | Won(node: Ref, top: T)

  datatype State<T> = State(heap: map<Ref, Node<T>>, head: Ref, threads: map<nat, Thread<T>>)

  datatype Action<T> =
    | BeginPush(arg: T, newNode: Ref)
    | LinkToHead
    | PushSwap(spurious: bool)
    | BeginPop
    | ReadNext
    | PopSwap(spurious: bool)
    | TakeResult

  /** What an atomic step means for the abstract stack. */
  datatype Event<T> = Silent | Pushed(val: T) | Popped(val: T) | SawEmpty

  predicate Enabled<T>(s: State<T>, t: nat, a: Action<T>)
  {
    t in s.threads &&
    match a
    case BeginPush(_, newNode) => s.threads[t].Idle? && newNode != NULL && newNode !in s.heap
    case LinkToHead => s.threads[t].Linking? && s.threads[t].node in s.heap
    case PushSwap(_) => s.threads[t].Pushing? && s.threads[t].node in s.heap
    case BeginPop => s.threads[t].Idle?
    case ReadNext => s.threads[t].Loaded? && s.threads[t].node in s.heap
    case PopSwap(_) => s.threads[t].Swapping? && s.threads[t].node in s.heap
    case TakeResult => s.threads[t].Won? && s.threads[t].node in s.heap
  }

  /** A pop that has just read head gives up on null and goes on otherwise. */
  function AfterRead<T>(s: State<T>, t: nat): (State<T>, Event<T>)
  {
    if s.head == NULL then (s.(threads := s.threads[t := Idle]), SawEmpty)
    else (s.(threads := s.threads[t := Loaded(s.head)]), Silent)
  }

  function Step<T>(s: State<T>, t: nat, a: Action<T>): (State<T>, Event<T>)
    requires Enabled(s, t, a)
  {
    var me := s.threads[t];
    match a
    case BeginPush(arg, newNode) =>
      (s.(heap := s.heap[newNode := Node(arg, NULL)], threads := s.threads[t := Linking(newNode, arg)]), Silent)
    case LinkToHead =>
      (s.(heap := s.heap[me.node := s.heap[me.node].(next := s.head)],
          threads := s.threads[t := Pushing(me.node, me.arg)]), Silent)
    case PushSwap(spurious) =>
      if s.head == s.heap[me.node].next && !spurious
      then (s.(head := me.node, threads := s.threads[t := Idle]), Pushed(me.arg))
      else (s.(heap := s.heap[me.node := s.heap[me.node].(next := s.head)]), Silent)
    case BeginPop => AfterRead(s, t)
    case ReadNext => (s.(threads := s.threads[t := Swapping(me.node, s.heap[me.node].next)]), Silent)
    case PopSwap(spurious) =>
      if s.head == me.node && !spurious
      then (s.(head := me.next, threads := s.threads[t := Won(me.node, s.heap[me.node].val)]), Popped(s.heap[me.node].val))
      else AfterRead(s, t)
    case TakeResult => (s.(threads := s.threads[t := Idle]), Silent)
  }

  /** What pop hands to its caller in the TakeResult step. */
  function Result<T>(s: State<T>, t: nat): T
    requires Enabled(s, t, TakeResult)
  {
    s.heap[s.threads[t].node].val
  }

  predicate Init<T>(s: State<T>)
  {
    s.heap == map[] && s.head == NULL && forall t :: t in s.threads ==> s.threads[t].Idle?
  }

  // ---------------------------------------------- the list that head leads to

  /** The references met when following next from h, stopping at null or at a
      reference met before. */
  function Walk<T>(heap: map<Ref, Node<T>>, h: Ref, unseen: set<Ref>): seq<Ref>
    decreases unseen
  {
    if h in unseen && h in heap then [h] + Walk(heap, heap[h].next, unseen - {h}) else []
  }

  function Vals<T>(heap: map<Ref, Node<T>>, refs: seq<Ref>): seq<T>
    requires forall i :: 0 <= i < |refs| ==> refs[i] in heap
  {
    seq(|refs|, i requires 0 <= i < |refs| => heap[refs[i]].val)
  }

  function Refs<T>(s: State<T>): seq<Ref>
  {
    Walk(s.heap, s.head, s.heap.Keys)
  }

  /** The stack's content as a thread alone would read it, top first. */
  function Contents<T>(s: State<T>): seq<T>
  {
    WalkInHeap(s.heap, s.head, s.heap.Keys);
    Vals(s.heap, Refs(s))
  }

  /** refs is the whole list from h, ending in null. */
  predicate Chain<T>(heap: map<Ref, Node<T>>, h: Ref, refs: seq<Ref>)
    decreases refs
  {
    if refs == [] then h == NULL
    else h == refs[0] && h in heap && Chain(heap, heap[h].next, refs[1..])
  }

  predicate Distinct(refs: seq<Ref>)
  {
    forall i, j :: 0 <= i < j < |refs| ==> refs[i] != refs[j]
  }

  lemma {:induction false} WalkInHeap<T>(heap: map<Ref, Node<T>>, h: Ref, unseen: set<Ref>)
    ensures forall i :: 0 <= i < |Walk(heap, h, unseen)| ==>
              Walk(heap, h, unseen)[i] in heap && Walk(heap, h, unseen)[i] in unseen
    ensures Distinct(Walk(heap, h, unseen))
    decreases unseen
  {
    if h in unseen && h in heap {
      WalkInHeap(heap, heap[h].next, unseen - {h});
    }
  }

  /** A null-terminated list without repetition is what the walk reads. */
  lemma {:induction false} WalkReadsChain<T>(heap: map<Ref, Node<T>>, h: Ref, refs: seq<Ref>, unseen: set<Ref>)
    requires Chain(heap, h, refs) && Distinct(refs) && NULL !in heap
    requires forall i :: 0 <= i < |refs| ==> refs[i] in unseen
    ensures Walk(heap, h, unseen) == refs
    decreases refs
  {
    if refs != [] {
      WalkReadsChain(heap, heap[h].next, refs[1..], unseen - {h});
    }
  }

  lemma {:induction false} ChainFrame<T>(heap: map<Ref, Node<T>>, heap': map<Ref, Node<T>>, h: Ref, refs: seq<Ref>)
    requires Chain(heap, h, refs)
    requires forall i :: 0 <= i < |refs| && refs[i] in heap ==> refs[i] in heap' && heap'[refs[i]] == heap[refs[i]]
    ensures Chain(heap', h, refs)
    ensures forall i :: 0 <= i < |refs| ==> refs[i] in heap
    decreases refs
  {
    if refs != [] {
      assert refs[0] in heap' && heap'[refs[0]] == heap[refs[0]];
      forall i | 0 <= i < |refs[1..]| && refs[1..][i] in heap
        ensures refs[1..][i] in heap' && heap'[refs[1..][i]] == heap[refs[1..][i]]
      {
        assert refs[1..][i] == refs[i + 1];
      }
      ChainFrame(heap, heap', heap[h].next, refs[1..]);
    }
  }

  // --------------------------------------------------------------- invariant

  /** Thread t owns node r: allocated by it and not yet published. */
  predicate Owns<T>(s: State<T>, t: nat, r: Ref)
  {
    t in s.threads && (s.threads[t].Linking? || s.threads[t].Pushing?) && s.threads[t].node == r
  }

  ghost predicate Published<T>(s: State<T>, r: Ref)
  {
    r in s.heap && forall t :: t in s.threads ==> !Owns(s, t, r)
  }

  ghost predicate ThreadOk<T>(s: State<T>, t: nat)
    requires t in s.threads
  {
    match s.threads[t]
    case Idle => true
    case Linking(r, arg) => r in s.heap && s.heap[r].val == arg
    case Pushing(r, arg) => r in s.heap && s.heap[r].val == arg
    case Loaded(r) => Published(s, r)
    case Swapping(r, next) => Published(s, r) && s.heap[r].next == next
    case Won(r, top) => Published(s, r) && s.heap[r].val == top
  }

  ghost predicate Inv<T>(s: State<T>)
  {
    && NULL !in s.heap
    && Chain(s.heap, s.head, Refs(s))
    && (forall i :: 0 <= i < |Refs(s)| ==> Published(s, Refs(s)[i]))
    && (forall t :: t in s.threads ==> ThreadOk(s, t))
    && (forall t, u, r :: Owns(s, t, r) && Owns(s, u, r) ==> t == u)
  }

  /** A step that leaves every published node alone keeps the list. */
  lemma ListIsKept<T>(s: State<T>, s': State<T>, refs: seq<Ref>)
    requires Inv(s) && NULL !in s'.heap
    requires s'.head == s.head && refs == Refs(s)
    requires forall i :: 0 <= i < |refs| ==> refs[i] in s'.heap && s'.heap[refs[i]] == s.heap[refs[i]]
    ensures Chain(s'.heap, s'.head, refs) && Refs(s') == refs && Contents(s') == Contents(s)
  {
    WalkInHeap(s.heap, s.head, s.heap.Keys);
    ChainFrame(s.heap, s'.heap, s.head, refs);
    WalkReadsChain(s'.heap, s'.head, refs, s'.heap.Keys);
  }

  /** The abstract stack's own behaviour. */
  predicate Abstract<T(==)>(before: seq<T>, e: Event<T>, after: seq<T>)
  {
    match e
    case Silent => after == before
    case Pushed(v) => after == [v] + before
    case Popped(v) => before == [v] + after
    case SawEmpty => before == [] && after == []
  }

  lemma PushSwapRefines<T>(s: State<T>, t: nat)
    requires Inv(s) && Enabled(s, t, PushSwap(false)) && s.head == s.heap[s.threads[t].node].next
    ensures var (s', e) := Step(s, t, PushSwap(false));
            Refs(s') == [s.threads[t].node] + Refs(s) && Chain(s'.heap, s'.head, Refs(s')) && Abstract(Contents(s), e, Contents(s'))
  {
    var (s', e) := Step(s, t, PushSwap(false));
    var n := s.threads[t].node;
    var refs := Refs(s);
    WalkInHeap(s.heap, s.head, s.heap.Keys);
    assert Owns(s, t, n) && ThreadOk(s, t);
    assert forall i :: 0 <= i < |refs| ==> refs[i] != n;
    assert ([n] + refs)[1..] == refs;
    WalkReadsChain(s'.heap, s'.head, [n] + refs, s'.heap.Keys);
  }

  lemma PopSwapRefines<T>(s: State<T>, t: nat)
    requires Inv(s) && Enabled(s, t, PopSwap(false)) && s.head == s.threads[t].node
    ensures var (s', e) := Step(s, t, PopSwap(false));
            && Refs(s) == [s.head] + Refs(s') && Chain(s'.heap, s'.head, Refs(s'))
            && Abstract(Contents(s), e, Contents(s'))
  {
    var (s', e) := Step(s, t, PopSwap(false));
    var refs := Refs(s);
    WalkInHeap(s.heap, s.head, s.heap.Keys);
    assert ThreadOk(s, t);
    assert refs != [];
    assert refs == [refs[0]] + refs[1..];
    WalkReadsChain(s'.heap, s'.head, refs[1..], s'.heap.Keys);
  }

  /** Every atomic step of every thread is exactly one step of the abstract stack. */
  lemma StepRefines<T>(s: State<T>, t: nat, a: Action<T>)
    requires Inv(s) && Enabled(s, t, a)
    ensures var (s', e) := Step(s, t, a);
            && Abstract(Contents(s), e, Contents(s'))
            && Chain(s'.heap, s'.head, Refs(s'))
            && forall i :: 0 <= i < |Refs(s')| ==> Published(s', Refs(s')[i])
  {
    var (s', e) := Step(s, t, a);
    var refs := Refs(s);
    assert ThreadOk(s, t);
    WalkInHeap(s.heap, s.head, s.heap.Keys);
    if e.Pushed? {
      PushSwapRefines(s, t);
      assert a == PushSwap(false);
      forall i | 0 <= i < |Refs(s')| ensures Published(s', Refs(s')[i]) {
        if i == 0 {
          var n := s.threads[t].node;
          forall u | u in s'.threads ensures !Owns(s', u, n) {
            assert Owns(s, t, n) && (Owns(s', u, n) ==> Owns(s, u, n));
          }
        } else {
          assert Refs(s')[i] == refs[i - 1];
          OthersKeep(s, t, a, refs[i - 1]);
        }
      }
    } else if e.Popped? {
      assert a == PopSwap(false);
      PopSwapRefines(s, t);
      forall i | 0 <= i < |Refs(s')| ensures Published(s', Refs(s')[i]) {
        assert Refs(s')[i] == refs[i + 1];
        OthersKeep(s, t, a, refs[i + 1]);
      }
    } else {
      forall i | 0 <= i < |refs|
        ensures Published(s', refs[i]) && s'.heap[refs[i]] == s.heap[refs[i]]
      {
        OthersKeep(s, t, a, refs[i]);
      }
      ListIsKept(s, s', refs);
    }
  }

  /** A published node stays published and is never written again: nothing can
      change under a thread between its read of next and its swap. */
  lemma OthersKeep<T>(s: State<T>, t: nat, a: Action<T>, r: Ref)
    requires Inv(s) && Enabled(s, t, a) && Published(s, r)
    ensures var s' := Step(s, t, a).0;
            Published(s', r) && s'.heap[r] == s.heap[r]
  {
    var s' := Step(s, t, a).0;
    assert !Owns(s, t, r);
    forall u | u in s'.threads ensures !Owns(s', u, r) {
      assert !Owns(s, u, r);
    }
  }

  lemma StepKeepsThreads<T>(s: State<T>, t: nat, a: Action<T>, u: nat)
    requires Inv(s) && Enabled(s, t, a) && u in s.threads
    ensures ThreadOk(Step(s, t, a).0, u)
  {
    var (s', e) := Step(s, t, a);
    assert ThreadOk(s, u) && ThreadOk(s, t);
    if s'.threads[u].Loaded? || s'.threads[u].Swapping? || s'.threads[u].Won? {
      if s'.threads[u].Loaded? && s.threads[u] != s'.threads[u] {
        assert Refs(s) != [] && Published(s, Refs(s)[0]);
      }
      OthersKeep(s, t, a, s'.threads[u].node);
    } else if u != t && (s.threads[u].Linking? || s.threads[u].Pushing?) {
      assert Owns(s, u, s.threads[u].node);
      assert !Owns(s, t, s.threads[u].node);
    }
  }

  lemma StepKeepsOwners<T>(s: State<T>, t: nat, a: Action<T>)
    requires Inv(s) && Enabled(s, t, a)
    ensures var s' := Step(s, t, a).0;
            forall u, w, r :: Owns(s', u, r) && Owns(s', w, r) ==> u == w
  {
    var s' := Step(s, t, a).0;
    forall u, w, r | Owns(s', u, r) && Owns(s', w, r) ensures u == w {
      assert ThreadOk(s, u) && ThreadOk(s, w);
      if !a.BeginPush? {
        assert Owns(s, u, r) && Owns(s, w, r);
      } else if u != t && w != t {
        assert Owns(s, u, r) && Owns(s, w, r);
      }
    }
  }

  lemma StepKeepsInv<T>(s: State<T>, t: nat, a: Action<T>)
    requires Inv(s) && Enabled(s, t, a)
    ensures Inv(Step(s, t, a).0)
  {
    StepRefines(s, t, a);
    StepKeepsOwners(s, t, a);
    var s' := Step(s, t, a).0;
    forall u | u in s'.threads ensures ThreadOk(s', u) {
      StepKeepsThreads(s, t, a, u);
    }
  }

  /** A successful pop returns the value that was on top when its swap happened. */
  lemma ResultIsTop<T>(s: State<T>, t: nat)
    requires Inv(s) && Enabled(s, t, TakeResult)
    ensures Result(s, t) == s.threads[t].top
  {
    assert ThreadOk(s, t);
  }

  /** Some address is free. */
  lemma FreshRef<T>(heap: map<Ref, Node<T>>) returns (r: Ref)
    ensures r != NULL && r !in heap
  {
    r := 1;
    if heap.Keys != {} {
      var most := Greatest(heap.Keys);
      r := most + 1;
    }
  }

  /** No thread is ever held up: whatever its state, every form of its next step is
      enabled, so the conditions on addresses never cut a run short. */
  lemma NeverBlocked<T>(s: State<T>, t: nat)
    requires Inv(s) && t in s.threads
    ensures exists r :: r != NULL && r !in s.heap
    ensures match s.threads[t]
            case Idle =>
              && Enabled(s, t, BeginPop)
              && forall arg, r :: r != NULL && r !in s.heap ==> Enabled(s, t, BeginPush(arg, r))
            case Linking(_, _) => Enabled(s, t, LinkToHead)
            case Pushing(_, _) => forall spurious :: Enabled(s, t, PushSwap(spurious))
            case Loaded(_) => Enabled(s, t, ReadNext)
            case Swapping(_, _) => forall spurious :: Enabled(s, t, PopSwap(spurious))
            case Won(_, _) => Enabled(s, t, TakeResult)
  {
    var r := FreshRef(s.heap);
    assert ThreadOk(s, t);
  }

  // -------------------------------------------------------------- whole runs

  datatype Label<T> = Label(thread: nat, action: Action<T>)

  /** The run can be played from s. */
  predicate Playable<T>(s: State<T>, run: seq<Label<T>>)
    decreases |run|
  {
    run == [] ||
    (Enabled(s, run[0].thread, run[0].action) &&
     Playable(Step(s, run[0].thread, run[0].action).0, run[1..]))
  }

  function Final<T>(s: State<T>, run: seq<Label<T>>): State<T>
    requires Playable(s, run)
    decreases |run|
  {
    if run == [] then s else Final(Step(s, run[0].thread, run[0].action).0, run[1..])
  }

  /** The events of a run, in the order of its atomic steps. */
  function Events<T>(s: State<T>, run: seq<Label<T>>): seq<Event<T>>
    requires Playable(s, run)
    decreases |run|
  {
    if run == [] then []
    else
      var (s', e) := Step(s, run[0].thread, run[0].action);
      [e] + Events(s', run[1..])
  }

  /** A sequential stack can go through these events, from one content to another. */
  ghost predicate Sequential<T(!new)>(before: seq<T>, es: seq<Event<T>>, after: seq<T>)
    decreases |es|
  {
    if es == [] then before == after
    else exists mid :: Abstract(before, es[0], mid) && Sequential(mid, es[1..], after)
  }

  lemma {:induction false} RunRefines<T(!new)>(s: State<T>, run: seq<Label<T>>)
    requires Inv(s) && Playable(s, run)
    ensures Inv(Final(s, run))
    ensures Sequential(Contents(s), Events(s, run), Contents(Final(s, run)))
    decreases |run|
  {
    if run != [] {
      var (s', e) := Step(s, run[0].thread, run[0].action);
      StepRefines(s, run[0].thread, run[0].action);
      StepKeepsInv(s, run[0].thread, run[0].action);
      RunRefines(s', run[1..]);
      var es := Events(s, run);
      assert es[0] == e && es[1..] == Events(s', run[1..]);
      assert Abstract(Contents(s), es[0], Contents(s'));
    }
  }

  /** How often v was pushed. */
  function Pushes<T(==)>(es: seq<Event<T>>, v: T): nat
  {
    if es == [] then 0 else (if es[0] == Pushed(v) then 1 else 0) + Pushes(es[1..], v)
  }

  /** How often v was popped. */
  function Pops<T(==)>(es: seq<Event<T>>, v: T): nat
  {
    if es == [] then 0 else (if es[0] == Popped(v) then 1 else 0) + Pops(es[1..], v)
  }

  lemma AbstractConserves<T>(before: seq<T>, e: Event<T>, after: seq<T>, v: T)
    requires Abstract(before, e, after)
    ensures multiset(before)[v] + (if e == Pushed(v) then 1 else 0) == multiset(after)[v] + (if e == Popped(v) then 1 else 0)
  {
    match e
    case Pushed(w) => assert multiset(after) == multiset{w} + multiset(before);
    case Popped(w) => assert multiset(before) == multiset{w} + multiset(after);
    case _ =>
  }

  lemma {:induction false} SequentialConserves<T(!new)>(before: seq<T>, es: seq<Event<T>>, after: seq<T>, v: T)
    requires Sequential(before, es, after)
    ensures multiset(before)[v] + Pushes(es, v) == multiset(after)[v] + Pops(es, v)
    decreases |es|
  {
    if es != [] {
      var mid :| Abstract(before, es[0], mid) && Sequential(mid, es[1..], after);
      AbstractConserves(before, es[0], mid, v);
      SequentialConserves(mid, es[1..], after, v);
    }
  }

  /** Linearizability and conservation from an empty stack, for every interleaving
      of any number of threads: the atomic steps replay on a sequential stack, and
      every value was pushed as often as it was popped plus as often as it is still
      on the list. */
  lemma EveryRunIsLinearizable<T(!new)>(s: State<T>, run: seq<Label<T>>)
    requires Init(s) && Playable(s, run)
    ensures Sequential([], Events(s, run), Contents(Final(s, run)))
    ensures forall v :: Pushes(Events(s, run), v) == Pops(Events(s, run), v) + multiset(Contents(Final(s, run)))[v]
  {
    assert Refs(s) == [] && Contents(s) == [];
    RunRefines(s, run);
    forall v ensures Pushes(Events(s, run), v) == Pops(Events(s, run), v) + multiset(Contents(Final(s, run)))[v] {
      SequentialConserves([], Events(s, run), Contents(Final(s, run)), v);
    }
  }

  // ------------------------------------------------- calls and what they return

  datatype Request<T> = PushCall(arg: T) | PopCall

  datatype Outcome<T> = PushDone(arg: T) | PopDone(val: T) | PopEmpty

  predicate Answers<T(==)>(q: Request<T>, o: Outcome<T>)
  {
    match q
    case PushCall(v) => o == PushDone(v)
    case PopCall => o.PopDone? || o.PopEmpty?
  }

  /** The call that a thread is in the middle of. */
  function Pending<T>(th: Thread<T>): seq<Request<T>>
  {
    match th
    case Idle => []
    case Linking(_, arg) => [PushCall(arg)]
    case Pushing(_, arg) => [PushCall(arg)]
    case _ => [PopCall]
  }

  /** A pop whose swap has happened but which has not returned. */
  function Unreturned<T>(th: Thread<T>): seq<Outcome<T>>
  {
    if th.Won? then [PopDone(th.top)] else []
  }

  /** What the event of a step means to the thread that takes it. */
  function Effect<T>(e: Event<T>): seq<Outcome<T>>
  {
    match e
    case Silent => []
    case Pushed(v) => [PushDone(v)]
    case Popped(v) => [PopDone(v)]
    case SawEmpty => [PopEmpty]
  }

  /** The call that a step begins. */
  function Begun<T>(a: Action<T>): seq<Request<T>>
  {
    match a
    case BeginPush(arg, _) => [PushCall(arg)]
    case BeginPop => [PopCall]
    case _ => []
  }

  /** What a step hands back to the caller. */
  function Handed<T>(s: State<T>, t: nat, a: Action<T>): seq<Outcome<T>>
    requires Enabled(s, t, a)
  {
    var e := Step(s, t, a).1;
    if a.TakeResult? then [PopDone(Result(s, t))]
    else if e.Pushed? then [PushDone(e.val)]
    else if e.SawEmpty? then [PopEmpty]
    else []
  }

  /** The calls of thread t in a run, in order. */
  function Calls<T>(run: seq<Label<T>>, t: nat): seq<Request<T>>
  {
    if run == [] then []
    else (if run[0].thread == t then Begun(run[0].action) else []) + Calls(run[1..], t)
  }

  /** What the calls of thread t returned, in order. */
  function Returned<T>(s: State<T>, run: seq<Label<T>>, t: nat): seq<Outcome<T>>
    requires Playable(s, run)
    decreases |run|
  {
    if run == [] then []
    else
      (if run[0].thread == t then Handed(s, t, run[0].action) else []) +
      Returned(Step(s, run[0].thread, run[0].action).0, run[1..], t)
  }

  /** The events of the sequential stack run that thread t caused, in order. */
  function Effects<T>(s: State<T>, run: seq<Label<T>>, t: nat): seq<Outcome<T>>
    requires Playable(s, run)
    decreases |run|
  {
    if run == [] then []
    else
      var (s', e) := Step(s, run[0].thread, run[0].action);
      (if run[0].thread == t then Effect(e) else []) + Effects(s', run[1..], t)
  }

  /** A step takes a thread from one pending call to another, handing back an answer. */
  predicate Passes<T(==)>(before: seq<Request<T>>, begun: seq<Request<T>>, handed: seq<Outcome<T>>, after: seq<Request<T>>)
  {
    if handed == [] then before + begun == after
    else |handed| == 1 && after == [] && |before + begun| == 1 && Answers((before + begun)[0], handed[0])
  }

  /** One step of a thread, seen by its caller. */
  lemma StepAnswers<T>(s: State<T>, t: nat, a: Action<T>)
    requires Inv(s) && Enabled(s, t, a)
    ensures var (s', e) := Step(s, t, a);
            && Unreturned(s.threads[t]) + Effect(e) == Handed(s, t, a) + Unreturned(s'.threads[t])
            && Passes(Pending(s.threads[t]), Begun(a), Handed(s, t, a), Pending(s'.threads[t]))
  {
    assert ThreadOk(s, t);
  }

  lemma OtherThreadsStay<T>(s: State<T>, u: nat, a: Action<T>, t: nat)
    requires Enabled(s, u, a) && t != u && t in s.threads
    ensures t in Step(s, u, a).0.threads && Step(s, u, a).0.threads[t] == s.threads[t]
  {
  }

  /** Each call is answered by what it returned. */
  ghost predicate AllAnswered<T>(calls: seq<Request<T>>, returned: seq<Outcome<T>>, pending: seq<Request<T>>)
  {
    && |calls| == |returned| + |pending| && calls[|returned|..] == pending
    && forall k :: 0 <= k < |returned| ==> Answers(calls[k], returned[k])
  }

  lemma AnsweredLater<T>(before: seq<Request<T>>, begun: seq<Request<T>>, handed: seq<Outcome<T>>, after: seq<Request<T>>,
                         calls: seq<Request<T>>, returned: seq<Outcome<T>>, pending: seq<Request<T>>)
    requires Passes(before, begun, handed, after) && AllAnswered(after + calls, returned, pending)
    ensures AllAnswered(before + (begun + calls), handed + returned, pending)
  {
    var all, out := before + (begun + calls), handed + returned;
    assert all == before + begun + calls;
    if handed == [] {
      assert out == returned;
    } else {
      assert after + calls == calls && all[1..] == calls;
      forall k | 0 <= k < |out| ensures Answers(all[k], out[k]) {
        assert k > 0 ==> all[k] == calls[k - 1] && out[k] == returned[k - 1];
      }
    }
  }

  lemma Rearranged<X>(u: seq<X>, e: seq<X>, effects: seq<X>, h: seq<X>, v: seq<X>, returned: seq<X>, w: seq<X>)
    requires u + e == h + v && v + effects == returned + w
    ensures u + (e + effects) == h + returned + w
  {
    assert u + (e + effects) == u + e + effects;
    assert h + v + effects == h + (v + effects);
    assert h + (returned + w) == h + returned + w;
  }

  /** In every run each call returns what the stack did for it: the outcomes of a thread's
      calls are its events in order, except that the last pop may still have to return. */
  lemma {:induction false} ReturnsAreEffects<T(!new)>(s: State<T>, run: seq<Label<T>>, t: nat)
    requires Inv(s) && Playable(s, run) && t in s.threads
    ensures t in Final(s, run).threads
    ensures Unreturned(s.threads[t]) + Effects(s, run, t) ==
            Returned(s, run, t) + Unreturned(Final(s, run).threads[t])
    decreases |run|
  {
    if run != [] {
      var u, a := run[0].thread, run[0].action;
      var (s', e) := Step(s, u, a);
      StepKeepsInv(s, u, a);
      var effects, returned := Effects(s', run[1..], t), Returned(s', run[1..], t);
      if u == t {
        StepAnswers(s, t, a);
        ReturnsAreEffects(s', run[1..], t);
        Rearranged(Unreturned(s.threads[t]), Effect(e), effects, Handed(s, t, a), Unreturned(s'.threads[t]),
                   returned, Unreturned(Final(s', run[1..]).threads[t]));
      } else {
        OtherThreadsStay(s, u, a, t);
        ReturnsAreEffects(s', run[1..], t);
        assert [] + returned == returned && [] + effects == effects;
      }
    }
  }

  /** And call by call they answer what was asked. */
  lemma {:induction false} CallsAreAnswered<T(!new)>(s: State<T>, run: seq<Label<T>>, t: nat)
    requires Inv(s) && Playable(s, run) && t in s.threads
    ensures t in Final(s, run).threads
    ensures AllAnswered(Pending(s.threads[t]) + Calls(run, t), Returned(s, run, t), Pending(Final(s, run).threads[t]))
    decreases |run|
  {
    var pending := Pending(s.threads[t]);
    if run == [] {
      assert pending + [] == pending;
    } else {
      var u, a := run[0].thread, run[0].action;
      var s' := Step(s, u, a).0;
      StepKeepsInv(s, u, a);
      var calls, returned := Calls(run[1..], t), Returned(s', run[1..], t);
      if u == t {
        StepAnswers(s, t, a);
        CallsAreAnswered(s', run[1..], t);
        var last := Final(s', run[1..]).threads[t];
        AnsweredLater(pending, Begun(a), Handed(s, t, a), Pending(s'.threads[t]), calls, returned, Pending(last));
      } else {
        OtherThreadsStay(s, u, a, t);
        CallsAreAnswered(s', run[1..], t);
        assert [] + calls == calls && [] + returned == returned;
      }
    }
  }

  /** From the empty stack: what the calls of a thread return are its events of the
      sequential run, one for each call and in the order of its calls. As this holds of
      every prefix of a run, the event of a call lies between its beginning and its return. */
  lemma CallsReturnTheirEvents<T(!new)>(s: State<T>, run: seq<Label<T>>, t: nat)
    requires Init(s) && Playable(s, run) && t in s.threads
    ensures t in Final(s, run).threads
    ensures var last := Final(s, run).threads[t];
            && Effects(s, run, t) == Returned(s, run, t) + Unreturned(last)
            && AllAnswered(Calls(run, t), Returned(s, run, t), Pending(last))
            && |Returned(s, run, t)| <= |Effects(s, run, t)| <= |Calls(run, t)| <= |Returned(s, run, t)| + 1
  {
    assert Refs(s) == [];
    ReturnsAreEffects(s, run, t);
    CallsAreAnswered(s, run, t);
    assert [] + Effects(s, run, t) == Effects(s, run, t) && [] + Calls(run, t) == Calls(run, t);
  }

  // ------------------------------------------------------------------- lock-freedom

  /** The value of head that the swap of thread t expects. */
  ghost predicate Expects<T>(s: State<T>, t: nat, h: Ref)
  {
    t in s.threads &&
    match s.threads[t]
    case Pushing(node, _) => node in s.heap && s.heap[node].next == h
    case Loaded(node) => node == h
    case Swapping(node, _) => node == h
    case _ => false
  }

  predicate ChangesHead<T>(e: Event<T>)
  {
    e.Pushed? || e.Popped?
  }

  lemma ExpectationStays<T>(s: State<T>, u: nat, a: Action<T>, t: nat, h: Ref)
    requires Inv(s) && Enabled(s, u, a) && Expects(s, t, h) && (u == t ==> a.ReadNext?)
    ensures var (s', e) := Step(s, u, a);
            && Expects(s', t, h) && (!ChangesHead(e) ==> s'.head == s.head) && (u == t ==> !ChangesHead(e))
  {
    if s.threads[t].Pushing? && u != t {
      var node := s.threads[t].node;
      assert Owns(s, t, node);
      assert !Owns(s, u, node);
    }
  }

  /** A swap that fails although nothing spurious happens fails because another thread's
      swap has succeeded since the head was read: some thread always gets on. */
  lemma {:induction false} FailedSwapMeansProgress<T(!new)>(s: State<T>, run: seq<Label<T>>, t: nat)
    requires Inv(s) && Playable(s, run) && Expects(s, t, s.head)
    requires forall i :: 0 <= i < |run| && run[i].thread == t ==> run[i].action.ReadNext?
    requires !Expects(Final(s, run), t, Final(s, run).head)
    ensures |Events(s, run)| == |run|
    ensures exists i :: 0 <= i < |run| && run[i].thread != t && ChangesHead(Events(s, run)[i])
    decreases |run|
  {
    EventsOfRun(s, run);
    var i := HeadChanged(s, run, t, s.head);
  }

  lemma {:induction false} EventsOfRun<T>(s: State<T>, run: seq<Label<T>>)
    requires Playable(s, run)
    ensures |Events(s, run)| == |run|
    decreases |run|
  {
    if run != [] {
      EventsOfRun(Step(s, run[0].thread, run[0].action).0, run[1..]);
    }
  }

  lemma {:induction false} HeadChanged<T(!new)>(s: State<T>, run: seq<Label<T>>, t: nat, h: Ref) returns (i: nat)
    requires Inv(s) && Playable(s, run) && Expects(s, t, h) && s.head == h
    requires forall k :: 0 <= k < |run| && run[k].thread == t ==> run[k].action.ReadNext?
    requires !Expects(Final(s, run), t, Final(s, run).head)
    ensures |Events(s, run)| == |run| && i < |run| && run[i].thread != t && ChangesHead(Events(s, run)[i])
    decreases |run|
  {
    EventsOfRun(s, run);
    var u, a := run[0].thread, run[0].action;
    var (s', e) := Step(s, u, a);
    ExpectationStays(s, u, a, t, h);
    if ChangesHead(e) {
      i := 0;
    } else {
      StepKeepsInv(s, u, a);
      var rest := run[1..];
      assert forall k :: 0 <= k < |rest| ==> rest[k] == run[k + 1];
      var k := HeadChanged(s', rest, t, h);
      i := k + 1;
    }
  }

  // --------------------------------------------------------- a thread left alone

  /** How many steps a pop needs that is about to swap out `node`. */
  function SwapSteps<T>(s: State<T>, node: Ref): nat
  {
    if node == s.head then 2 else if s.head == NULL then 1 else 4
  }

  /** How many steps a thread needs to return if no other thread moves and no swap fails
      spuriously. */
  function StepsAlone<T>(s: State<T>, t: nat): nat
    requires t in s.threads
  {
    match s.threads[t]
    case Idle => 0
    case Linking(_, _) => 2
    case Pushing(node, _) => if node in s.heap && s.heap[node].next == s.head then 1 else 2
    case Loaded(node) => 1 + SwapSteps(s, node)
    case Swapping(node, _) => SwapSteps(s, node)
    case Won(_, _) => 1
  }

  function NextAction<T>(th: Thread<T>): Action<T>
    requires !th.Idle?
  {
    match th
    case Linking(_, _) => LinkToHead
    case Pushing(_, _) => PushSwap(false)
    case Loaded(_) => ReadNext
    case Swapping(_, _) => PopSwap(false)
    case Won(_, _) => TakeResult
  }

  /** Every step a thread takes alone brings it one step closer to its return: a swap that
      fails has read the head again, and a swap that finds the head it expects succeeds. */
  lemma AloneGetsCloser<T>(s: State<T>, t: nat)
    requires Inv(s) && t in s.threads && !s.threads[t].Idle?
    ensures var a := NextAction(s.threads[t]);
            && Enabled(s, t, a)
            && var s' := Step(s, t, a).0;
               t in s'.threads && StepsAlone(s', t) + 1 == StepsAlone(s, t)
  {
    assert ThreadOk(s, t);
  }

  /** So every call that is left alone returns, after at most five more steps. */
  lemma {:induction false} AloneReturns<T>(s: State<T>, t: nat) returns (run: seq<Label<T>>)
    requires Inv(s) && t in s.threads
    ensures |run| == StepsAlone(s, t) <= 5 && forall i :: 0 <= i < |run| ==> run[i].thread == t
    ensures Playable(s, run) && t in Final(s, run).threads && Final(s, run).threads[t].Idle?
    decreases StepsAlone(s, t)
  {
    if s.threads[t].Idle? {
      run := [];
    } else {
      var a := NextAction(s.threads[t]);
      AloneGetsCloser(s, t);
      StepKeepsInv(s, t, a);
      var rest := AloneReturns(Step(s, t, a).0, t);
      run := [Label(t, a)] + rest;
      assert run[1..] == rest;
    }
  }
}
