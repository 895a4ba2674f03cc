module RingBuffer {
  // The lock-free ring buffer for one producer and one consumer. The two calls are a
  // class over an array; their interleavings are a state machine whose steps are
  // single loads and stores of the indices and single accesses to a slot.

  import opened Options

  // ----------------------------------------------------------------- slot numbers

  /** The index after i. */
  function Advance(i: int, n: int): (r: int)
    requires n > 0
    ensures 0 <= r < n && (0 <= i < n ==> r == if i + 1 < n then i + 1 else 0)
  {
    (i + 1) % n
  }

  /** The index once it has been advanced k times. */
  function SlotOf(k: nat, n: int): (r: int)
    requires n > 0
    ensures 0 <= r < n
  {
    if k == 0 then 0 else Advance(SlotOf(k - 1, n), n)
  }

  /** Up to one turn ahead, indices do not repeat until the turn is complete. */
  lemma {:induction false} SlotAhead(k: nat, d: nat, n: int)
    requires 0 <= d <= n && n > 0
    ensures var here := SlotOf(k, n);
            SlotOf(k + d, n) == if here + d < n then here + d else here + d - n
    decreases d
  {
    if d > 0 {
      SlotAhead(k, d - 1, n);
    }
  }

  // ------------------------------------------------------------------- the class

  class Buffer<T(0)> {
    const buffer: array<T>
    var head: int
    var tail: int

    ghost predicate Valid()
      reads this
    {
      0 <= head < buffer.Length && 0 <= tail < buffer.Length
    }

    ghost function Count(): int
      reads this
    {
      if head <= tail then tail - head else tail - head + buffer.Length
    }

    /** The slot of the i-th item from the head. */
    ghost function Slot(i: int): int
      reads this
    {
      if head + i < buffer.Length then head + i else head + i - buffer.Length
    }

    /** What a thread alone would find, oldest first. */
    ghost function Contents(): (s: seq<T>)
      requires Valid()
      reads this, buffer
      ensures |s| == Count() && forall i :: 0 <= i < Count() ==> s[i] == buffer[Slot(i)]
    {
      seq(Count(), i requires 0 <= i < Count() && Valid() reads this, buffer => buffer[Slot(i)])
    }

    constructor (size: nat)
      requires size >= 1
      ensures Valid() && Contents() == [] && buffer.Length == size
    {
      buffer := new T[size];
      head, tail := 0, 0;
    }

    method Push(item: T) returns (ok: bool)
      requires Valid()
      modifies this, buffer
      ensures Valid()
      ensures ok <==> |old(Contents())| < buffer.Length - 1
      ensures Contents() == if ok then old(Contents()) + [item] else old(Contents())
    {
      var currTail := tail;
      var nextTail := Advance(currTail, buffer.Length);
      if nextTail == head {
        return false;
      }
      buffer[currTail] := item;
      tail := nextTail;
      ok := true;
      assert Contents() == old(Contents()) + [item];
    }

    method Pop() returns (item: Option<T>)
      requires Valid()
      modifies this
      ensures Valid()
      ensures item.None? <==> old(Contents()) == []
      ensures item.None? ==> Contents() == old(Contents())
      ensures item.Some? ==> old(Contents()) == [item.value] + Contents()
    {
      var currHead := head;
      var nextHead := Advance(currHead, buffer.Length);
      if currHead == tail {
        return None;
      }
      item := Some(buffer[currHead]);
      head := nextHead;
      assert old(Contents()) == [item.value] + Contents();
    }
  }

  // ------------------------------------------------------------------ the machine

  /** Producer, inside push: has loaded tail; has seen room; has filled the slot. */
  datatype Producer<T> =
    | PIdle
    | PLoaded(item: T, slot: int)
    | PRoom(item: T, slot: int, next: int)
    | PFilled(item: T, slot: int, next: int)

  /** Consumer, inside pop: has loaded head; has seen an item; has copied it. */
  datatype Consumer<T> =
    | CIdle
    | CLoaded(slot: int)
    | CSome(slot: int)
    | CCopied(slot: int, item: T)

  /** `pushed` and `popped` are history: the items of published pushes and pops. */
  datatype State<T> = State(
    buffer: seq<T>, head: int, tail: int, producer: Producer<T>, consumer: Consumer<T>,
    pushed: seq<T>, popped: seq<T>)

  datatype Action<T> =
    | BeginPush(item: T) | CheckFull | FillSlot | PublishTail
    | BeginPop | CheckEmpty | CopySlot | PublishHead

  predicate Enabled<T>(s: State<T>, a: Action<T>)
  {
    |s.buffer| > 0 &&
    match a
    case BeginPush(_) => s.producer.PIdle?
    case CheckFull => s.producer.PLoaded?
    case FillSlot => s.producer.PRoom? && 0 <= s.producer.slot < |s.buffer|
    case PublishTail => s.producer.PFilled?
    case BeginPop => s.consumer.CIdle?
    case CheckEmpty => s.consumer.CLoaded?
    case CopySlot => s.consumer.CSome? && 0 <= s.consumer.slot < |s.buffer|
    case PublishHead => s.consumer.CCopied?
  }

  function Step<T>(s: State<T>, a: Action<T>): State<T>
    requires Enabled(s, a)
  {
    var n := |s.buffer|;
    var p, c := s.producer, s.consumer;
    match a
    case BeginPush(item) => s.(producer := PLoaded(item, s.tail))
    case CheckFull =>
      var next := Advance(p.slot, n);
      s.(producer := if next == s.head then PIdle else PRoom(p.item, p.slot, next))
    case FillSlot => s.(buffer := s.buffer[p.slot := p.item], producer := PFilled(p.item, p.slot, p.next))
    case PublishTail => s.(tail := p.next, producer := PIdle, pushed := s.pushed + [p.item])
    case BeginPop => s.(consumer := CLoaded(s.head))
    case CheckEmpty => s.(consumer := if c.slot == s.tail then CIdle else CSome(c.slot))
    case CopySlot => s.(consumer := CCopied(c.slot, s.buffer[c.slot]))
    case PublishHead => s.(head := Advance(c.slot, n), consumer := CIdle, popped := s.popped + [c.item])
  }

  predicate Init<T>(s: State<T>)
  {
    && |s.buffer| > 0 && s.head == 0 && s.tail == 0
    && s.producer.PIdle? && s.consumer.CIdle? && s.pushed == [] && s.popped == []
  }

  // -------------------------------------------------------------------- invariant

  /** How many items are in the buffer. */
  function Held<T>(s: State<T>): int
  {
    |s.pushed| - |s.popped|
  }

  ghost predicate IndicesOk<T>(s: State<T>)
  {
    && |s.buffer| > 0
    && s.tail == SlotOf(|s.pushed|, |s.buffer|) && s.head == SlotOf(|s.popped|, |s.buffer|)
    && 0 <= Held(s) < |s.buffer|
  }

  ghost predicate SlotsOk<T>(s: State<T>)
    requires |s.buffer| > 0
  {
    && s.popped <= s.pushed
    && forall i :: |s.popped| <= i < |s.pushed| ==> s.buffer[SlotOf(i, |s.buffer|)] == s.pushed[i]
  }

  ghost predicate ProducerOk<T>(s: State<T>)
    requires |s.buffer| > 0
  {
    match s.producer
    case PIdle => true
    case PLoaded(_, slot) => slot == s.tail
    case PRoom(_, slot, next) => slot == s.tail && next == Advance(slot, |s.buffer|) && Held(s) + 1 < |s.buffer|
    case PFilled(item, slot, next) =>
      && slot == s.tail && next == Advance(slot, |s.buffer|) && Held(s) + 1 < |s.buffer|
      && 0 <= slot < |s.buffer| && s.buffer[slot] == item
  }

  ghost predicate ConsumerOk<T>(s: State<T>)
    requires SlotsOkPre(s)
  {
    match s.consumer
    case CIdle => true
    case CLoaded(slot) => slot == s.head
    case CSome(slot) => slot == s.head && Held(s) > 0
    case CCopied(slot, item) => slot == s.head && Held(s) > 0 && item == s.pushed[|s.popped|]
  }

  predicate SlotsOkPre<T>(s: State<T>)
  {
    |s.buffer| > 0 && |s.popped| <= |s.pushed|
  }

  ghost predicate Inv<T>(s: State<T>)
  {
    IndicesOk(s) && SlotsOk(s) && ProducerOk(s) && ConsumerOk(s)
  }

  /** Equal indices mean an empty buffer; tail just behind head a full one. */
  lemma IndicesTell<T>(s: State<T>)
    requires IndicesOk(s)
    ensures s.head == s.tail <==> Held(s) == 0
    ensures Advance(s.tail, |s.buffer|) == s.head <==> Held(s) + 1 == |s.buffer|
  {
    SlotAhead(|s.popped|, Held(s), |s.buffer|);
  }

  lemma FillKeepsSlots<T>(s: State<T>)
    requires Inv(s) && s.producer.PRoom?
    ensures SlotsOk(s.(buffer := s.buffer[s.tail := s.producer.item]))
  {
    var n := |s.buffer|;
    forall i | |s.popped| <= i < |s.pushed| ensures SlotOf(i, n) != s.tail {
      SlotAhead(i, |s.pushed| - i, n);
    }
  }

  predicate Produces<T>(a: Action<T>)
  {
    a.BeginPush? || a.CheckFull? || a.FillSlot? || a.PublishTail?
  }

  lemma ProducerKeepsInv<T>(s: State<T>, a: Action<T>)
    requires Inv(s) && Enabled(s, a) && Produces(a)
    ensures Inv(Step(s, a))
  {
    IndicesTell(s);
    if a.FillSlot? {
      FillKeepsSlots(s);
    }
  }

  lemma ConsumerKeepsInv<T>(s: State<T>, a: Action<T>)
    requires Inv(s) && Enabled(s, a) && !Produces(a)
    ensures Inv(Step(s, a))
  {
    IndicesTell(s);
  }

  lemma StepKeepsInv<T>(s: State<T>, a: Action<T>)
    requires Inv(s) && Enabled(s, a)
    ensures Inv(Step(s, a))
  {
    if Produces(a) {
      ProducerKeepsInv(s, a);
    } else {
      ConsumerKeepsInv(s, a);
    }
  }

  /** Neither side is ever held up: its next step is enabled, so the conditions on slots
      never cut a run short. */
  lemma NeverBlocked<T>(s: State<T>)
    requires Inv(s)
    ensures match s.producer
            case PIdle => forall item :: Enabled(s, BeginPush(item))
            case PLoaded(_, _) => Enabled(s, CheckFull)
            case PRoom(_, _, _) => Enabled(s, FillSlot)
            case PFilled(_, _, _) => Enabled(s, PublishTail)
    ensures match s.consumer
            case CIdle => Enabled(s, BeginPop)
            case CLoaded(_) => Enabled(s, CheckEmpty)
            case CSome(_) => Enabled(s, CopySlot)
            case CCopied(_, _) => Enabled(s, PublishHead)
  {
  }

  // ------------------------------------------------------------------- whole runs

  predicate Playable<T>(s: State<T>, run: seq<Action<T>>)
    decreases |run|
  {
    run == [] || (Enabled(s, run[0]) && Playable(Step(s, run[0]), run[1..]))
  }

  function Final<T>(s: State<T>, run: seq<Action<T>>): State<T>
    requires Playable(s, run)
    decreases |run|
  {
    if run == [] then s else Final(Step(s, run[0]), run[1..])
  }

  lemma {:induction false} RunKeepsInv<T>(s: State<T>, run: seq<Action<T>>)
    requires Inv(s) && Playable(s, run)
    ensures Inv(Final(s, run)) && |Final(s, run).buffer| == |s.buffer|
    decreases |run|
  {
    if run != [] {
      StepKeepsInv(s, run[0]);
      RunKeepsInv(Step(s, run[0]), run[1..]);
    }
  }

  /** The items that the caller passed to the pushes that a run publishes, told from its
      actions alone; `begun` is the item of a push that is already under way. */
  function Passed<T>(run: seq<Action<T>>, begun: Option<T>): seq<T>
    decreases |run|
  {
    if run == [] then []
    else
      match run[0]
      case BeginPush(item) => Passed(run[1..], Some(item))
      case PublishTail => (if begun.Some? then [begun.value] else []) + Passed(run[1..], None)
      case _ => Passed(run[1..], begun)
  }

  function InHand<T>(p: Producer<T>): Option<T>
  {
    if p.PIdle? then None else Some(p.item)
  }

  /** An item in hand is passed on, and a push that is refused passes nothing. */
  lemma {:induction false} RefusedIsForgotten<T>(s: State<T>, run: seq<Action<T>>, begun: Option<T>)
    requires Playable(s, run) && s.producer.PIdle?
    ensures Passed(run, begun) == Passed(run, None)
    decreases |run|
  {
    if run != [] && !run[0].BeginPush? {
      RefusedIsForgotten(Step(s, run[0]), run[1..], begun);
    }
  }

  /** What a run publishes is what its callers passed, in order. */
  lemma {:induction false} PushedIsPassed<T>(s: State<T>, run: seq<Action<T>>)
    requires Playable(s, run)
    ensures Final(s, run).pushed == s.pushed + Passed(run, InHand(s.producer))
    decreases |run|
  {
    if run != [] {
      var next := Step(s, run[0]);
      PushedIsPassed(next, run[1..]);
      if run[0].CheckFull? && next.producer.PIdle? {
        RefusedIsForgotten(next, run[1..], InHand(s.producer));
      }
    }
  }

  function Pops<T>(run: seq<Action<T>>): nat
  {
    if run == [] then 0 else Pops(run[1..]) + if run[0].PublishHead? then 1 else 0
  }

  lemma {:induction false} PoppedAreCounted<T>(s: State<T>, run: seq<Action<T>>)
    requires Playable(s, run)
    ensures |Final(s, run).popped| == |s.popped| + Pops(run)
    decreases |run|
  {
    if run != [] {
      PoppedAreCounted(Step(s, run[0]), run[1..]);
    }
  }

  /** First in, first out, under every interleaving and for every capacity: what has been
      pushed is what the callers passed to push, the pops have returned the first of these
      in order, one each, and at most capacity - 1 items are held. */
  lemma PoppedIsPrefixOfPushed<T>(s: State<T>, run: seq<Action<T>>)
    requires Init(s) && Playable(s, run)
    ensures var e := Final(s, run);
            && e.popped <= e.pushed && |e.pushed| - |e.popped| <= |s.buffer| - 1
            && e.pushed == Passed(run, None)
            && Pops(run) <= |Passed(run, None)| && e.popped == Passed(run, None)[..Pops(run)]
  {
    RunKeepsInv(s, run);
    PushedIsPassed(s, run);
    PoppedAreCounted(s, run);
  }

  /** When the producer is about to fill a slot and the consumer is about to copy one,
      they are different slots. */
  lemma NeverTheSameSlot<T>(s: State<T>, run: seq<Action<T>>)
    requires Init(s) && Playable(s, run)
    ensures var e := Final(s, run);
            e.producer.PRoom? && e.consumer.CSome? ==> e.producer.slot != e.consumer.slot
  {
    RunKeepsInv(s, run);
    var e := Final(s, run);
    if e.producer.PRoom? && e.consumer.CSome? {
      SlotAhead(|e.popped|, Held(e), |e.buffer|);
    }
  }

  /** A push is refused exactly when the buffer is full at the moment it looks, a pop
      exactly when it is empty. */
  lemma RefusalsAreExact<T>(s: State<T>, run: seq<Action<T>>)
    requires Init(s) && Playable(s, run)
    ensures var e := Final(s, run);
            && (Enabled(e, CheckFull) ==> (Step(e, CheckFull).producer.PIdle? <==> Held(e) == |s.buffer| - 1))
            && (Enabled(e, CheckEmpty) ==> (Step(e, CheckEmpty).consumer.CIdle? <==> Held(e) == 0))
  {
    RunKeepsInv(s, run);
    IndicesTell(Final(s, run));
  }
}
