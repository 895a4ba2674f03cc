/** What the calls of a cache say by themselves. A run of puts and gets is a list of calls;
    these functions tell from that list alone when a key was last named, what was last put
    under it and what each get has to return once it is known which keys are held. They are
    what the runs of the two caches are measured against. */
module CacheCalls {

  import opened Options

  datatype Op = Put(key: int, value: int) | Get(key: int)

  /** The position of the last call that names the key, or -1. */
  function LastCall(ops: seq<Op>, key: int): (r: int)
    ensures -1 <= r < |ops| && (r >= 0 ==> ops[r].key == key)
    ensures forall i :: r < i < |ops| ==> ops[i].key != key
  {
    if ops == [] then -1
    else if ops[|ops| - 1].key == key then |ops| - 1
    else LastCall(ops[..|ops| - 1], key)
  }

  predicate Puts(op: Op, key: int)
  {
    op.Put? && op.key == key
  }

  /** The value that was last put under the key. */
  function LatestPut(ops: seq<Op>, key: int): (r: Option<int>)
    ensures r.None? ==> forall i :: 0 <= i < |ops| ==> !Puts(ops[i], key)
    ensures r.Some? ==> exists i :: 0 <= i < |ops| && Puts(ops[i], key) && ops[i].value == r.value &&
                                    forall j :: i < j < |ops| ==> !Puts(ops[j], key)
  {
    if ops == [] then None
    else
      var last := |ops| - 1;
      if Puts(ops[last], key) then Some(ops[last].value)
      else
        var r := LatestPut(ops[..last], key);
        assert forall i :: 0 <= i < last ==> ops[..last][i] == ops[i];
        r
  }

  /** What one more call does to these readings. */
  lemma OneMoreCall(ops: seq<Op>, op: Op, k: int)
    ensures LastCall(ops + [op], k) == if op.key == k then |ops| else LastCall(ops, k)
    ensures LatestPut(ops + [op], k) == if Puts(op, k) then Some(op.value) else LatestPut(ops, k)
  {
    assert (ops + [op])[..|ops|] == ops;
  }

  /** `held[i]` is the set of keys held before the i-th call. */
  predicate TraceOf(held: seq<set<int>>, ops: seq<Op>)
  {
    |held| == |ops| + 1
  }

  /** What the gets return: the latest value for a held key, -1 for any other. */
  function Results(held: seq<set<int>>, ops: seq<Op>): seq<int>
    requires TraceOf(held, ops)
    decreases |ops|
  {
    if ops == [] then []
    else
      var last := |ops| - 1;
      Results(held[..last + 1], ops[..last]) +
      match ops[last]
      case Put(_, _) => []
      case Get(k) =>
        match LatestPut(ops[..last], k)
        case Some(value) => [if k in held[last] then value else -1]
        case None => [-1]
  }

  /** How often a held key has been called since it was last taken in. */
  function CallsSince(held: seq<set<int>>, ops: seq<Op>, key: int): nat
    requires TraceOf(held, ops)
    decreases |ops|
  {
    var last := |ops| - 1;
    if ops == [] || key !in held[last + 1] then 0
    else CallsSince(held[..last + 1], ops[..last], key) + if ops[last].key == key then 1 else 0
  }

  // ------------------------------------------------------------------ which keys are held

  /** The one of these keys that was called longest ago. */
  ghost predicate LeastRecent(keys: set<int>, ops: seq<Op>, v: int)
  {
    v in keys && forall u :: u in keys && u != v ==> LastCall(ops, v) < LastCall(ops, u)
  }

  /** A put into a full cache drops the key that was called longest ago. */
  ghost predicate LruStep(now: set<int>, cap: int, ops: seq<Op>, op: Op, next: set<int>)
  {
    match op
    case Get(_) => next == now
    case Put(k, _) =>
      if cap == 0 then next == now
      else if k in now || |now| < cap then next == now + {k}
      else exists v :: LeastRecent(now, ops, v) && next == now - {v} + {k}
  }

  ghost predicate LruTrace(held: seq<set<int>>, cap: int, ops: seq<Op>)
    decreases |ops|
  {
    TraceOf(held, ops) &&
    if ops == [] then held[0] == {}
    else
      var last := |ops| - 1;
      && LruTrace(held[..last + 1], cap, ops[..last])
      && LruStep(held[last], cap, ops[..last], ops[last], held[last + 1])
  }

  /** Fewest calls since it was taken in, and of those the one called longest ago. */
  ghost predicate LeastCalled(held: seq<set<int>>, ops: seq<Op>, v: int)
    requires TraceOf(held, ops)
  {
    v in held[|ops|] && forall u :: u in held[|ops|] && u != v ==> CalledLess(held, ops, v, u)
  }

  predicate CalledLess(held: seq<set<int>>, ops: seq<Op>, v: int, u: int)
    requires TraceOf(held, ops)
  {
    || CallsSince(held, ops, v) < CallsSince(held, ops, u)
    || (CallsSince(held, ops, v) == CallsSince(held, ops, u) && LastCall(ops, v) < LastCall(ops, u))
  }

  /** A put into a full cache drops the key that was called least. */
  ghost predicate LfuStep(held: seq<set<int>>, cap: int, ops: seq<Op>, op: Op, next: set<int>)
    requires TraceOf(held, ops)
  {
    var now := held[|ops|];
    match op
    case Get(_) => next == now
    case Put(k, _) =>
      if cap == 0 || k in now then next == now
      else if |now| == cap then exists v :: LeastCalled(held, ops, v) && next == now - {v} + {k}
      else next == now + {k}
  }

  ghost predicate LfuTrace(held: seq<set<int>>, cap: int, ops: seq<Op>)
    decreases |ops|
  {
    TraceOf(held, ops) &&
    if ops == [] then held[0] == {}
    else
      var last := |ops| - 1;
      && LfuTrace(held[..last + 1], cap, ops[..last])
      && LfuStep(held[..last + 1], cap, ops[..last], ops[last], held[last + 1])
  }

  /** The calls determine which keys are held. */
  lemma {:induction false} LruTraceIsUnique(a: seq<set<int>>, b: seq<set<int>>, cap: int, ops: seq<Op>)
    requires LruTrace(a, cap, ops) && LruTrace(b, cap, ops)
    ensures a == b
    decreases |ops|
  {
    if ops == [] {
      assert a == [a[0]] && b == [b[0]];
    } else {
      var last := |ops| - 1;
      LruTraceIsUnique(a[..last + 1], b[..last + 1], cap, ops[..last]);
      assert a[last] == a[..last + 1][last] && b[last] == b[..last + 1][last];
      assert a == a[..last + 1] + [a[last + 1]] && b == b[..last + 1] + [b[last + 1]];
    }
  }

  lemma {:induction false} LfuTraceIsUnique(a: seq<set<int>>, b: seq<set<int>>, cap: int, ops: seq<Op>)
    requires LfuTrace(a, cap, ops) && LfuTrace(b, cap, ops)
    ensures a == b
    decreases |ops|
  {
    if ops == [] {
      assert a == [a[0]] && b == [b[0]];
    } else {
      var last := |ops| - 1;
      LfuTraceIsUnique(a[..last + 1], b[..last + 1], cap, ops[..last]);
      assert a == a[..last + 1] + [a[last + 1]] && b == b[..last + 1] + [b[last + 1]];
    }
  }
}
