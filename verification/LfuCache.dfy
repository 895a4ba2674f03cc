module LfuCache {
  // The LFU cache: buckets of equal frequency, most recently used first, and a tracked
  // minimum. Proved to behave as a plain table with a use count and a time of last use
  // per key, evicting the key that is least by (count, last use).

  import opened CacheCalls
  import opened Options
  import opened Sets

  // --------------------------------------------------------------- the plain table

  datatype Item = Item(value: int, count: int, used: int)

  /** `clock` counts the calls that used the cache. */
  datatype Table = Table(items: map<int, Item>, clock: int)

  predicate Before(a: Item, b: Item)
  {
    a.count < b.count || (a.count == b.count && a.used < b.used)
  }

  predicate LeastUsed(items: map<int, Item>, key: int)
  {
    key in items && forall k :: k in items && k != key ==> Before(items[key], items[k])
  }

  function Touch(t: Table, key: int, value: int): Table
    requires key in t.items
  {
    Table(t.items[key := Item(value, t.items[key].count + 1, t.clock)], t.clock + 1)
  }

  function TableGet(t: Table, key: int): (Table, int)
  {
    if key in t.items then (Touch(t, key, t.items[key].value), t.items[key].value) else (t, -1)
  }

  /** The table after a put; `victim` is the key to go if one has to. */
  function TablePut(t: Table, capacity: int, key: int, value: int, victim: int): Table
  {
    if capacity == 0 then t
    else if key in t.items then Touch(t, key, value)
    else
      var kept := if |t.items| == capacity then t.items - {victim} else t.items;
      Table(kept[key := Item(value, 1, t.clock)], t.clock + 1)
  }

  /** At most as many entries as the capacity; a negative one never stops the growth. */
  predicate Bounded(t: Table, capacity: int)
  {
    capacity >= 0 ==> |t.items| <= capacity
  }

  lemma SameKeysSameSize(a: map<int, Item>, b: map<int, Item>)
    requires a.Keys == b.Keys
    ensures |a| == |b|
  {
    assert |a| == |a.Keys| && |b| == |b.Keys|;
  }

  lemma GetBounded(t: Table, capacity: int, key: int)
    requires Bounded(t, capacity)
    ensures Bounded(TableGet(t, key).0, capacity)
  {
    if key in t.items {
      var u := Touch(t, key, t.items[key].value);
      assert u.items.Keys == t.items.Keys;
      SameKeysSameSize(u.items, t.items);
    }
  }

  lemma PutBounded(t: Table, capacity: int, key: int, value: int, victim: int)
    requires Bounded(t, capacity)
    requires capacity != 0 && key !in t.items && |t.items| == capacity ==> victim in t.items
    ensures Bounded(TablePut(t, capacity, key, value, victim), capacity)
  {
    var u := TablePut(t, capacity, key, value, victim);
    if capacity != 0 && key in t.items {
      assert u.items.Keys == t.items.Keys;
      SameKeysSameSize(u.items, t.items);
    } else if capacity > 0 {
      var kept := if |t.items| == capacity then t.items - {victim} else t.items;
      RemoveSize(t.items, victim);
      assert u.items.Keys == kept.Keys + {key};
      assert |u.items.Keys| == |kept.Keys| + 1;
    }
  }

  lemma RemoveSize(m: map<int, Item>, key: int)
    ensures key in m ==> |m - {key}| + 1 == |m|
  {
    assert (m - {key}).Keys == m.Keys - {key};
    assert |m.Keys| == |m| && |(m - {key}).Keys| == |m - {key}|;
  }

  // ---------------------------------------------------------------- runs of the table

  lemma LeastUsedIsUnique(items: map<int, Item>, a: int, b: int)
    requires LeastUsed(items, a) && LeastUsed(items, b)
    ensures a == b
  {
  }

  /** The key that has to go, if one has to. */
  ghost function Victim(items: map<int, Item>): int
  {
    if exists k :: LeastUsed(items, k) then var k :| LeastUsed(items, k); k else 0
  }

  /** A run on the plain table: the final table and what the gets returned. */
  ghost function TableRun(t: Table, capacity: int, ops: seq<Op>): (Table, seq<int>)
    decreases |ops|
  {
    if ops == [] then (t, [])
    else
      var (u, out) := TableRun(t, capacity, ops[..|ops| - 1]);
      match ops[|ops| - 1]
      case Put(k, v) => (TablePut(u, capacity, k, v, Victim(u.items)), out)
      case Get(k) => (TableGet(u, k).0, out + [TableGet(u, k).1])
  }

  lemma VictimIsForced(t: Table, capacity: int, key: int, value: int, victim: int)
    requires capacity != 0 && key !in t.items && |t.items| == capacity ==> LeastUsed(t.items, victim)
    ensures TablePut(t, capacity, key, value, victim) == TablePut(t, capacity, key, value, Victim(t.items))
  {
    if capacity != 0 && key !in t.items && |t.items| == capacity {
      LeastUsedIsUnique(t.items, victim, Victim(t.items));
    }
  }

  // --------------------------------------------------- what a run holds, from its calls

  const EMPTY := Table(map[], 0)

  ghost predicate ItemExplained(item: Item, held: seq<set<int>>, ops: seq<Op>, k: int)
    requires TraceOf(held, ops)
  {
    LatestPut(ops, k) == Some(item.value) && item.count == CallsSince(held, ops, k) && LastCall(ops, k) >= 0
  }

  /** Times of use are in the order of the calls. */
  ghost predicate InCallOrder(t: Table, ops: seq<Op>)
  {
    && (forall k :: k in t.items ==> t.items[k].used < t.clock)
    && forall a, b :: a in t.items && b in t.items ==>
         (t.items[a].used < t.items[b].used <==> LastCall(ops, a) < LastCall(ops, b))
  }

  /** The table holds what the calls say: the value last put, the calls since the key was
      taken in, and the order of last calls. */
  ghost predicate Explained(t: Table, held: seq<set<int>>, ops: seq<Op>)
    requires TraceOf(held, ops)
  {
    && t.items.Keys == held[|ops|]
    && (forall k :: k in t.items ==> ItemExplained(t.items[k], held, ops, k))
    && InCallOrder(t, ops)
  }

  lemma {:induction false} LeastUsedExists(items: map<int, Item>) returns (key: int)
    requires items != map[]
    requires forall a, b :: a in items && b in items && a != b ==> items[a].used != items[b].used
    ensures LeastUsed(items, key)
    decreases |items|
  {
    key := ElementOf(items.Keys);
    var rest := items - {key};
    if rest != map[] {
      RemoveSize(items, key);
      var other := LeastUsedExists(rest);
      assert items[other] == rest[other];
      forall k | k in items && k != key ensures k in rest && items[k] == rest[k] {
      }
      key := if Before(items[key], items[other]) then key else other;
    } else {
      forall k | k in items ensures k == key {
        assert k !in rest;
      }
    }
  }

  /** Distinct keys have distinct last calls. */
  lemma CallsAreApart(ops: seq<Op>, a: int, b: int)
    requires a != b && LastCall(ops, a) >= 0
    ensures LastCall(ops, a) != LastCall(ops, b)
  {
  }

  /** In an explained table the least used key is the least called one. */
  lemma VictimIsLeastCalled(t: Table, held: seq<set<int>>, ops: seq<Op>)
    requires TraceOf(held, ops) && Explained(t, held, ops) && t.items != map[]
    ensures LeastUsed(t.items, Victim(t.items)) && LeastCalled(held, ops, Victim(t.items))
  {
    forall a, b | a in t.items && b in t.items && a != b ensures t.items[a].used != t.items[b].used {
      assert ItemExplained(t.items[a], held, ops, a);
      CallsAreApart(ops, a, b);
    }
    var some := LeastUsedExists(t.items);
    var v := Victim(t.items);
    forall u | u in held[|ops|] && u != v ensures CalledLess(held, ops, v, u) {
      assert Before(t.items[v], t.items[u]);
      assert ItemExplained(t.items[v], held, ops, v) && ItemExplained(t.items[u], held, ops, u);
    }
  }

  lemma OneMoreCounted(held: seq<set<int>>, next: set<int>, ops: seq<Op>, op: Op, k: int)
    requires TraceOf(held, ops)
    ensures CallsSince(held + [next], ops + [op], k) ==
            if k !in next then 0 else CallsSince(held, ops, k) + if op.key == k then 1 else 0
  {
    assert (ops + [op])[..|ops|] == ops && (held + [next])[..|ops| + 1] == held;
  }

  /** A use of key: its item is new, every other item is the old one or is gone. */
  lemma UseExplained(t: Table, u: Table, held: seq<set<int>>, ops: seq<Op>, op: Op)
    requires TraceOf(held, ops) && Explained(t, held, ops)
    requires op.key in u.items && u.clock == t.clock + 1 && u.items[op.key].used == t.clock
    requires forall k :: k in u.items && k != op.key ==> k in t.items && u.items[k] == t.items[k]
    requires u.items[op.key].count == CallsSince(held, ops, op.key) + 1
    requires Some(u.items[op.key].value) == if op.Put? then Some(op.value) else LatestPut(ops, op.key)
    ensures Explained(u, held + [u.items.Keys], ops + [op])
  {
    var held', ops' := held + [u.items.Keys], ops + [op];
    forall k | k in u.items
      ensures ItemExplained(u.items[k], held', ops', k)
      ensures LastCall(ops', k) == if k == op.key then |ops| else LastCall(ops, k)
    {
      OneMoreCall(ops, op, k);
      OneMoreCounted(held, u.items.Keys, ops, op, k);
      assert k != op.key ==> ItemExplained(t.items[k], held, ops, k);
    }
    assert InCallOrder(u, ops') by {
      assert forall a, b :: a in t.items && b in t.items ==>
        (t.items[a].used < t.items[b].used <==> LastCall(ops, a) < LastCall(ops, b));
    }
  }

  /** A call that is no use changes nothing. */
  lemma MissExplained(t: Table, held: seq<set<int>>, ops: seq<Op>, op: Op)
    requires TraceOf(held, ops) && Explained(t, held, ops)
    requires op.key !in t.items
    ensures Explained(t, held + [t.items.Keys], ops + [op])
  {
    forall k | k in t.items
      ensures ItemExplained(t.items[k], held + [t.items.Keys], ops + [op], k)
      ensures LastCall(ops + [op], k) == LastCall(ops, k)
    {
      OneMoreCall(ops, op, k);
      OneMoreCounted(held, t.items.Keys, ops, op, k);
      assert ItemExplained(t.items[k], held, ops, k);
    }
  }

  lemma NotHeldNotCalled(held: seq<set<int>>, ops: seq<Op>, k: int)
    requires TraceOf(held, ops) && k !in held[|ops|]
    ensures CallsSince(held, ops, k) == 0
  {
  }

  lemma PutExplained(t: Table, held: seq<set<int>>, cap: int, ops: seq<Op>, op: Op)
    requires TraceOf(held, ops) && Explained(t, held, ops) && op.Put? && (cap == 0 ==> t.items == map[])
    ensures var u := TablePut(t, cap, op.key, op.value, Victim(t.items));
            && Explained(u, held + [u.items.Keys], ops + [op])
            && LfuStep(held, cap, ops, op, u.items.Keys)
  {
    var u := TablePut(t, cap, op.key, op.value, Victim(t.items));
    if cap == 0 {
      MissExplained(t, held, ops, op);
    } else if op.key in t.items {
      TouchExplained(t, held, ops, op, op.value);
    } else {
      NotHeldNotCalled(held, ops, op.key);
      UseExplained(t, u, held, ops, op);
      NewKeyStep(t, held, cap, ops, op);
    }
  }

  lemma TouchExplained(t: Table, held: seq<set<int>>, ops: seq<Op>, op: Op, value: int)
    requires TraceOf(held, ops) && Explained(t, held, ops) && op.key in t.items
    requires value == if op.Put? then op.value else t.items[op.key].value
    ensures var u := Touch(t, op.key, value);
            Explained(u, held + [u.items.Keys], ops + [op]) && u.items.Keys == held[|ops|]
  {
    assert ItemExplained(t.items[op.key], held, ops, op.key);
    UseExplained(t, Touch(t, op.key, value), held, ops, op);
  }

  lemma NewKeyStep(t: Table, held: seq<set<int>>, cap: int, ops: seq<Op>, op: Op)
    requires TraceOf(held, ops) && Explained(t, held, ops) && op.Put? && cap != 0 && op.key !in t.items
    ensures LfuStep(held, cap, ops, op, TablePut(t, cap, op.key, op.value, Victim(t.items)).items.Keys)
  {
    var keys := TablePut(t, cap, op.key, op.value, Victim(t.items)).items.Keys;
    assert |t.items.Keys| == |t.items|;
    if |t.items| == cap {
      assert t.items != map[];
      VictimIsLeastCalled(t, held, ops);
      assert keys == held[|ops|] - {Victim(t.items)} + {op.key};
    } else {
      assert keys == held[|ops|] + {op.key};
    }
  }

  lemma GetExplained(t: Table, held: seq<set<int>>, ops: seq<Op>, op: Op)
    requires TraceOf(held, ops) && Explained(t, held, ops) && op.Get?
    ensures var (u, value) := TableGet(t, op.key);
            && Explained(u, held + [u.items.Keys], ops + [op]) && u.items.Keys == held[|ops|]
            && Some(value) == if op.key in held[|ops|] then LatestPut(ops, op.key) else Some(-1)
  {
    if op.key in t.items {
      assert ItemExplained(t.items[op.key], held, ops, op.key);
      TouchExplained(t, held, ops, op, t.items[op.key].value);
    } else {
      MissExplained(t, held, ops, op);
    }
  }

  /** From the empty table: which keys are held, what is held under them and what the gets
      return follow from the calls alone. */
  lemma {:induction false} RunFollowsCalls(cap: int, ops: seq<Op>) returns (held: seq<set<int>>)
    ensures LfuTrace(held, cap, ops)
    ensures var (t, out) := TableRun(EMPTY, cap, ops);
            Explained(t, held, ops) && out == Results(held, ops) && (cap == 0 ==> t.items == map[])
    decreases |ops|
  {
    if ops == [] {
      held := [{}];
    } else {
      var last := |ops| - 1;
      var front, op := ops[..last], ops[last];
      assert ops == front + [op];
      var before := RunFollowsCalls(cap, front);
      var t := TableRun(EMPTY, cap, front).0;
      var u := TableRun(EMPTY, cap, ops).0;
      if op.Put? {
        PutExplained(t, before, cap, front, op);
      } else {
        GetExplained(t, before, front, op);
      }
      held := before + [u.items.Keys];
      assert held[..last + 1] == before;
    }
  }

  function Revalued(t: Table, key: int, value: int): Table
    requires key in t.items
  {
    t.(items := t.items[key := t.items[key].(value := value)])
  }

  lemma TouchRevalued(t: Table, key: int, value: int)
    requires key in t.items
    ensures Touch(Revalued(t, key, value), key, value) == Touch(t, key, value)
  {
  }

  // ------------------------------------------------------------------- the buckets

  datatype Node = Node(key: int, value: int, freq: int)

  predicate HasNode(b: seq<Node>, key: int)
  {
    exists i :: 0 <= i < |b| && b[i].key == key
  }

  function IndexOf(b: seq<Node>, key: int): (i: nat)
    requires HasNode(b, key)
    ensures i < |b| && b[i].key == key
  {
    if b[0].key == key then 0 else 1 + IndexOf(b[1..], key)
  }

  function Remove(b: seq<Node>, key: int): seq<Node>
    requires HasNode(b, key)
  {
    b[..IndexOf(b, key)] + b[IndexOf(b, key) + 1..]
  }

  predicate NodeOk(n: Node, f: int, items: map<int, Item>)
  {
    n.freq == f && n.key in items && items[n.key].count == f && items[n.key].value == n.value
  }

  /** A bucket holds nodes of its own frequency, latest use first. */
  ghost predicate BucketOk(b: seq<Node>, f: int, items: map<int, Item>)
  {
    && b != []
    && (forall i :: 0 <= i < |b| ==> NodeOk(b[i], f, items))
    && (forall i, j :: 0 <= i < j < |b| ==> items[b[j].key].used < items[b[i].key].used)
  }

  /** The buckets hold exactly the table's keys. */
  ghost predicate Buckets(sameFreq: map<int, seq<Node>>, items: map<int, Item>)
  {
    && (forall f :: f in sameFreq ==> BucketOk(sameFreq[f], f, items))
    && (forall k :: k in items ==> Located(sameFreq, items, k))
  }

  predicate Located(sameFreq: map<int, seq<Node>>, items: map<int, Item>, k: int)
    requires k in items
  {
    items[k].count in sameFreq && HasNode(sameFreq[items[k].count], k)
  }

  /** minFrequency is the least frequency present. */
  ghost predicate IsMinimum(sameFreq: map<int, seq<Node>>, min: int)
  {
    sameFreq != map[] ==> min in sameFreq && forall f :: f in sameFreq ==> min <= f
  }

  ghost predicate Clocked(t: Table)
  {
    forall k :: k in t.items ==> t.items[k].used < t.clock && t.items[k].count >= 1
  }

  function Detach(sameFreq: map<int, seq<Node>>, f: int, key: int): map<int, seq<Node>>
    requires f in sameFreq && HasNode(sameFreq[f], key)
  {
    var b := Remove(sameFreq[f], key);
    if b == [] then sameFreq - {f} else sameFreq[f := b]
  }

  function BucketAt(sameFreq: map<int, seq<Node>>, f: int): seq<Node>
  {
    if f in sameFreq then sameFreq[f] else []
  }

  function PushFront(sameFreq: map<int, seq<Node>>, n: Node): map<int, seq<Node>>
  {
    sameFreq[n.freq := [n] + BucketAt(sameFreq, n.freq)]
  }

  /** Within one bucket a key occurs once, so removing its node removes the key. */
  lemma RemoveOk(b: seq<Node>, f: int, items: map<int, Item>, key: int)
    requires BucketOk(b, f, items) && HasNode(b, key)
    ensures var r := Remove(b, key);
            && |r| + 1 == |b|
            && (r != [] ==> BucketOk(r, f, items - {key}))
            && (forall k :: k != key && HasNode(b, k) ==> HasNode(r, k))
  {
    var i := IndexOf(b, key);
    var r := Remove(b, key);
    forall j | 0 <= j < |r| ensures NodeOk(r[j], f, items - {key}) {
      assert r[j] == b[if j < i then j else j + 1];
      assert r[j].key != key;
    }
    forall k | k != key && HasNode(b, k) ensures HasNode(r, k) {
      var j :| 0 <= j < |b| && b[j].key == k;
      assert r[if j < i then j else j - 1].key == k;
    }
  }

  lemma DetachOk(sameFreq: map<int, seq<Node>>, items: map<int, Item>, key: int)
    requires Buckets(sameFreq, items) && key in items
    ensures Located(sameFreq, items, key)
    ensures Buckets(Detach(sameFreq, items[key].count, key), items - {key})
  {
    var f := items[key].count;
    assert Located(sameFreq, items, key);
    var b, rest := sameFreq[f], Detach(sameFreq, f, key);
    RemoveOk(b, f, items, key);
    forall g | g in rest ensures BucketOk(rest[g], g, items - {key}) {
      assert BucketOk(sameFreq[g], g, items);
    }
    forall k | k in items - {key} ensures Located(rest, items - {key}, k) {
      assert Located(sameFreq, items, k);
    }
  }

  lemma PushOk(sameFreq: map<int, seq<Node>>, items: map<int, Item>, key: int, item: Item)
    requires Buckets(sameFreq, items) && key !in items
    requires forall k :: k in items ==> items[k].used < item.used
    ensures Buckets(PushFront(sameFreq, Node(key, item.value, item.count)), items[key := item])
  {
    var n := Node(key, item.value, item.count);
    var all, items' := PushFront(sameFreq, n), items[key := item];
    forall g | g in all ensures BucketOk(all[g], g, items') {
      assert g in sameFreq ==> BucketOk(sameFreq[g], g, items);
      if g == n.freq {
        var rest := BucketAt(sameFreq, g);
        assert all[g] == [n] + rest;
        assert forall i :: 0 <= i < |rest| ==> NodeOk(rest[i], g, items);
      } else {
        assert forall i :: 0 <= i < |all[g]| ==> NodeOk(all[g][i], g, items);
      }
    }
    forall k | k in items' ensures Located(all, items', k) {
      if k == key {
        assert all[n.freq][0].key == key;
      } else {
        assert Located(sameFreq, items, k);
        var b := sameFreq[items[k].count];
        var i :| 0 <= i < |b| && b[i].key == k;
        assert all[items[k].count][if items[k].count == n.freq then i + 1 else i].key == k;
      }
    }
  }

  function Rewrite(b: seq<Node>, key: int, value: int): seq<Node>
    requires HasNode(b, key)
  {
    var i := IndexOf(b, key);
    b[i := b[i].(value := value)]
  }

  lemma BucketUntouched(b: seq<Node>, f: int, items: map<int, Item>, key: int, item: Item)
    requires BucketOk(b, f, items) && key in items && items[key].count != f
    ensures BucketOk(b, f, items[key := item])
  {
    forall j | 0 <= j < |b| ensures NodeOk(b[j], f, items[key := item]) {
      assert NodeOk(b[j], f, items);
    }
  }

  lemma BucketRewritten(b: seq<Node>, f: int, items: map<int, Item>, key: int, value: int)
    requires BucketOk(b, f, items) && HasNode(b, key) && key in items && items[key].count == f
    ensures BucketOk(Rewrite(b, key, value), f, items[key := items[key].(value := value)])
  {
    var i := IndexOf(b, key);
    var c, items' := Rewrite(b, key, value), items[key := items[key].(value := value)];
    forall j | 0 <= j < |c| ensures NodeOk(c[j], f, items') && c[j].key == b[j].key {
      assert NodeOk(b[j], f, items);
      assert j != i ==> b[j].key != key;
    }
  }

  lemma RewriteOk(sameFreq: map<int, seq<Node>>, items: map<int, Item>, key: int, value: int)
    requires Buckets(sameFreq, items) && key in items
    ensures Located(sameFreq, items, key)
    ensures var f := items[key].count;
            Buckets(sameFreq[f := Rewrite(sameFreq[f], key, value)], items[key := items[key].(value := value)])
  {
    var f := items[key].count;
    assert Located(sameFreq, items, key);
    var b := sameFreq[f];
    var all, items' := sameFreq[f := Rewrite(b, key, value)], items[key := items[key].(value := value)];
    forall g | g in all ensures BucketOk(all[g], g, items') {
      assert BucketOk(sameFreq[g], g, items);
      if g == f {
        BucketRewritten(b, f, items, key, value);
      } else {
        BucketUntouched(all[g], g, items, key, items'[key]);
      }
    }
    forall k | k in items' ensures Located(all, items', k) {
      assert Located(sameFreq, items, k);
      var c := sameFreq[items[k].count];
      var j := IndexOf(c, k);
      assert all[items[k].count][j].key == k;
    }
  }

  /** The last node of the lowest bucket is the table's least used key. */
  lemma VictimIsLeastUsed(sameFreq: map<int, seq<Node>>, items: map<int, Item>, min: int)
    requires Buckets(sameFreq, items) && IsMinimum(sameFreq, min) && items != map[]
    ensures min in sameFreq && sameFreq[min] != []
    ensures LeastUsed(items, sameFreq[min][|sameFreq[min]| - 1].key)
  {
    var some := ElementOf(items.Keys);
    assert Located(sameFreq, items, some);
    var b := sameFreq[min];
    assert BucketOk(b, min, items);
    var last := b[|b| - 1];
    assert NodeOk(last, min, items);
    forall k | k in items && k != last.key ensures Before(items[last.key], items[k]) {
      assert Located(sameFreq, items, k);
      if items[k].count == min {
        var i := IndexOf(b, k);
        assert i < |b| - 1;
      }
    }
  }

  /** The buckets after a key's node has moved up one bucket. */
  function Moved(sameFreq: map<int, seq<Node>>, f: int, key: int): map<int, seq<Node>>
    requires f in sameFreq && HasNode(sameFreq[f], key)
  {
    var node := sameFreq[f][IndexOf(sameFreq[f], key)];
    PushFront(Detach(sameFreq, f, key), Node(key, node.value, f + 1))
  }

  /** The tracked minimum then: it rises when the lowest bucket has become empty. */
  function MinimumMoved(b: seq<Node>, f: int, key: int, min: int): int
    requires HasNode(b, key)
  {
    if Remove(b, key) == [] && min == f then min + 1 else min
  }

  /** Moving a key's node up one bucket is a use of that key. */
  lemma MoveOk(sameFreq: map<int, seq<Node>>, t: Table, key: int)
    requires Buckets(sameFreq, t.items) && Clocked(t) && key in t.items
    ensures Located(sameFreq, t.items, key)
    ensures var f := t.items[key].count;
            var value := t.items[key].value;
            && sameFreq[f][IndexOf(sameFreq[f], key)].value == value
            && Buckets(Moved(sameFreq, f, key), Touch(t, key, value).items)
  {
    var f := t.items[key].count;
    DetachOk(sameFreq, t.items, key);
    var node := sameFreq[f][IndexOf(sameFreq[f], key)];
    assert NodeOk(node, f, t.items) by {
      assert BucketOk(sameFreq[f], f, t.items);
    }
    var item := Item(node.value, f + 1, t.clock);
    var detached := Detach(sameFreq, f, key);
    var n := Node(key, node.value, f + 1);
    PushUsed(detached, t, key, item);
    assert Moved(sameFreq, f, key) == PushFront(detached, n) && Touch(t, key, node.value).items == t.items[key := item];
  }

  lemma PushUsed(sameFreq: map<int, seq<Node>>, t: Table, key: int, item: Item)
    requires Buckets(sameFreq, t.items - {key}) && Clocked(t) && item.used == t.clock
    ensures Buckets(PushFront(sameFreq, Node(key, item.value, item.count)), t.items[key := item])
  {
    PutBack(t.items, key, item);
    PushOk(sameFreq, t.items - {key}, key, item);
  }

  lemma PutBack(items: map<int, Item>, key: int, item: Item)
    ensures (items - {key})[key := item] == items[key := item]
  {
  }

  // --------------------------------------------------------------------- the class

  class LFUCache {
    const capacity: int
    var sameFreq: map<int, seq<Node>>
    /** For each key, the bucket that its node is in. */
    var mm: map<int, int>
    var minFrequency: int

    /** The plain table that this cache stands for. */
    ghost var table: Table

    ghost predicate Linked()
      reads this
    {
      && Buckets(sameFreq, table.items)
      && Clocked(table)
      && IsMinimum(sameFreq, minFrequency)
      && Indexed(mm, table.items)
    }

    ghost predicate Valid()
      reads this
    {
      Linked() && Bounded(table, capacity)
    }

    constructor (cap: int)
      ensures Valid() && capacity == cap && table == EMPTY
    {
      capacity, sameFreq, mm, minFrequency := cap, map[], map[], 0;
      table := EMPTY;
    }

    /** Moves a key's node to the next bucket. */
    method MoveNode(key: int)
      requires key in mm && mm[key] in sameFreq && HasNode(sameFreq[mm[key]], key)
      modifies this`sameFreq, this`mm, this`minFrequency
      ensures sameFreq == Moved(old(sameFreq), old(mm)[key], key)
      ensures mm == old(mm)[key := old(mm)[key] + 1]
      ensures var f := old(mm)[key];
              minFrequency == MinimumMoved(old(sameFreq)[f], f, key, old(minFrequency))
    {
      var freq := mm[key];
      var value := sameFreq[freq][IndexOf(sameFreq[freq], key)].value;
      var rest := Remove(sameFreq[freq], key);
      if rest == [] {
        sameFreq := sameFreq - {freq};
        if minFrequency == freq {
          minFrequency := minFrequency + 1;
        }
      } else {
        sameFreq := sameFreq[freq := rest];
      }
      sameFreq := PushFront(sameFreq, Node(key, value, freq + 1));
      mm := mm[key := freq + 1];
    }

    /** One use of the key. */
    method UpdateFreq(key: int)
      requires Linked() && key in mm
      modifies this
      ensures Linked() && table == Touch(old(table), key, old(table).items[key].value)
    {
      MoveOk(sameFreq, table, key);
      MinimumAfterMove(sameFreq, minFrequency, mm[key], key);
      MoveNode(key);
      table := Touch(table, key, table.items[key].value);
    }

    method Get(key: int) returns (value: int)
      requires Valid()
      modifies this
      ensures Valid() && (table, value) == TableGet(old(table), key)
    {
      GetBounded(table, capacity, key);
      if key !in mm {
        return -1;
      }
      DetachOk(sameFreq, table.items, key);
      var bucket := sameFreq[mm[key]];
      var node := bucket[IndexOf(bucket, key)];
      assert BucketOk(bucket, mm[key], table.items) && NodeOk(node, mm[key], table.items);
      value := node.value;
      UpdateFreq(key);
    }

    /** When a key has to go, it is the least used one: fewest uses, then longest
        unused. */
    method Put(key: int, value: int) returns (ghost victim: int)
      requires Valid()
      modifies this
      ensures Valid() && table == TablePut(old(table), capacity, key, value, victim)
      ensures capacity != 0 && key !in old(table).items && |old(table).items| == capacity ==>
                LeastUsed(old(table).items, victim)
    {
      victim := PutLinked(key, value);
      PutBounded(old(table), capacity, key, value, victim);
    }

    method PutLinked(key: int, value: int) returns (ghost victim: int)
      requires Linked()
      modifies this
      ensures Linked() && table == TablePut(old(table), capacity, key, value, victim)
      ensures capacity != 0 && key !in old(table).items && |old(table).items| == capacity ==>
                LeastUsed(old(table).items, victim)
    {
      victim := key;
      if capacity == 0 {
        return;
      }
      if key in mm {
        Overwrite(key, value);
        return;
      }
      assert mm.Keys == table.items.Keys;
      if |mm| == capacity {
        victim := Evict();
      }
      InsertNew(key, value);
    }

    /** A new value in the node of a key that is held. */
    method SetValue(key: int, value: int)
      requires Linked() && key in mm
      modifies this`sameFreq, this`table
      ensures Linked() && table == Revalued(old(table), key, value)
    {
      RewriteOk(sameFreq, table.items, key, value);
      var freq := mm[key];
      sameFreq := sameFreq[freq := Rewrite(sameFreq[freq], key, value)];
      table := Revalued(table, key, value);
    }

    method Overwrite(key: int, value: int)
      requires Linked() && key in mm
      modifies this
      ensures Linked() && table == Touch(old(table), key, value)
    {
      TouchRevalued(table, key, value);
      SetValue(key, value);
      UpdateFreq(key);
    }

    method Evict() returns (ghost victim: int)
      requires Linked() && |mm| > 0
      modifies this
      ensures Buckets(sameFreq, table.items) && Clocked(table) && Indexed(mm, table.items)
      ensures LeastUsed(old(table).items, victim)
      ensures table == old(table).(items := old(table).items - {victim})
    {
      assert table.items != map[] by {
        assert mm.Keys == table.items.Keys;
        assert table.items == map[] ==> |mm.Keys| == 0;
      }
      VictimIsLeastUsed(sameFreq, table.items, minFrequency);
      var lfu := sameFreq[minFrequency];
      var victimKey := lfu[|lfu| - 1].key;
      DetachOk(sameFreq, table.items, victimKey);
      RemoveLast(lfu, minFrequency, table.items);
      lfu := lfu[..|lfu| - 1];
      if lfu == [] {
        sameFreq := sameFreq - {minFrequency};
      } else {
        sameFreq := sameFreq[minFrequency := lfu];
      }
      mm := mm - {victimKey};
      table := table.(items := table.items - {victimKey});
      victim := victimKey;
    }

    method InsertNew(key: int, value: int)
      requires Buckets(sameFreq, table.items) && Clocked(table) && Indexed(mm, table.items)
      requires key !in mm
      modifies this
      ensures Linked()
      ensures table == Table(old(table).items[key := Item(value, 1, old(table).clock)], old(table).clock + 1)
    {
      minFrequency := 1;
      PushOk(sameFreq, table.items, key, Item(value, 1, table.clock));
      CountsArePositive(sameFreq, table);
      sameFreq := PushFront(sameFreq, Node(key, value, 1));
      mm := mm[key := 1];
      table := Table(table.items[key := Item(value, 1, table.clock)], table.clock + 1);
    }
  }

  /** Any run of puts and gets gives the results, and leaves the contents, of the same run
      on the plain table, and never exceeds the capacity. */
  method RunAll(cache: LFUCache, ops: seq<Op>) returns (out: seq<int>)
    requires cache.Valid()
    modifies cache
    ensures cache.Valid() && (cache.table, out) == TableRun(old(cache.table), cache.capacity, ops)
  {
    out := [];
    for i := 0 to |ops|
      invariant cache.Valid() && (cache.table, out) == TableRun(old(cache.table), cache.capacity, ops[..i])
    {
      assert ops[..i + 1][..i] == ops[..i];
      ghost var before := cache.table;
      match ops[i]
      case Put(k, v) =>
        ghost var victim := cache.Put(k, v);
        VictimIsForced(before, cache.capacity, k, v, victim);
      case Get(k) =>
        var value := cache.Get(k);
        out := out + [value];
    }
    assert ops[..|ops|] == ops;
  }

  /** A new cache through any run of calls: the keys it holds are those the calls leave, a
      get returns what was last put under a held key and -1 otherwise, and the capacity is
      kept. */
  method RunNew(cap: int, ops: seq<Op>) returns (cache: LFUCache, out: seq<int>, ghost held: seq<set<int>>)
    ensures fresh(cache) && cache.Valid() && LfuTrace(held, cap, ops)
    ensures out == Results(held, ops) && cache.mm.Keys == held[|ops|]
    ensures forall k :: k in cache.mm ==> cache.mm[k] == CallsSince(held, ops, k)
    ensures cap >= 0 ==> |held[|ops|]| <= cap
  {
    cache := new LFUCache(cap);
    out := RunAll(cache, ops);
    held := RunFollowsCalls(cap, ops);
    forall k | k in cache.mm ensures cache.mm[k] == CallsSince(held, ops, k) {
      assert ItemExplained(cache.table.items[k], held, ops, k);
    }
    assert |cache.table.items| == |held[|ops|]| by {
      assert |cache.table.items.Keys| == |cache.table.items|;
    }
  }

  predicate Indexed(mm: map<int, int>, items: map<int, Item>)
  {
    mm.Keys == items.Keys && forall k :: k in items ==> mm[k] == items[k].count
  }

  lemma CountsArePositive(sameFreq: map<int, seq<Node>>, t: Table)
    requires Buckets(sameFreq, t.items) && Clocked(t)
    ensures forall f :: f in sameFreq ==> f >= 1
  {
    forall f | f in sameFreq ensures f >= 1 {
      assert BucketOk(sameFreq[f], f, t.items);
      assert NodeOk(sameFreq[f][0], f, t.items);
    }
  }

  /** The node at the back of a bucket is the one that its key names. */
  lemma RemoveLast(b: seq<Node>, f: int, items: map<int, Item>)
    requires BucketOk(b, f, items)
    ensures HasNode(b, b[|b| - 1].key) && Remove(b, b[|b| - 1].key) == b[..|b| - 1]
  {
    var key := b[|b| - 1].key;
    assert HasNode(b, key);
    var i := IndexOf(b, key);
    assert i == |b| - 1;
  }

  /** The tracked minimum survives the move of a node from bucket f to f + 1. */
  lemma MinimumAfterMove(sameFreq: map<int, seq<Node>>, min: int, f: int, key: int)
    requires IsMinimum(sameFreq, min) && f in sameFreq && HasNode(sameFreq[f], key)
    ensures IsMinimum(Moved(sameFreq, f, key), MinimumMoved(sameFreq[f], f, key, min))
  {
  }
}
