module MultiTierCache {
  // The multi-tier LRU cache: a miss in room at one tier cascades its least recent
  // entry into the next. Proved to behave, through any run, as one LRU list whose
  // capacity is the sum of the tiers'.

  import opened CacheCalls
  import opened Options

  type Entry = (int, int)

  // ------------------------------------------------------------- lists by recency

  predicate HasKey(s: seq<Entry>, key: int)
  {
    exists i :: 0 <= i < |s| && s[i].0 == key
  }

  predicate DistinctKeys(s: seq<Entry>)
  {
    forall i, j :: 0 <= i < j < |s| ==> s[i].0 != s[j].0
  }

  /** s without the entry of key. */
  function Without(s: seq<Entry>, key: int): seq<Entry>
  {
    if s == [] then [] else (if s[0].0 == key then [] else [s[0]]) + Without(s[1..], key)
  }

  function Lookup(s: seq<Entry>, key: int): int
    requires HasKey(s, key)
  {
    if s[0].0 == key then s[0].1 else Lookup(s[1..], key)
  }

  function Concat(lists: seq<seq<Entry>>): seq<Entry>
  {
    if lists == [] then [] else lists[0] + Concat(lists[1..])
  }

  function Sum(caps: seq<int>): int
  {
    if caps == [] then 0 else caps[0] + Sum(caps[1..])
  }

  lemma {:induction false} WithoutAbsent(s: seq<Entry>, key: int)
    requires !HasKey(s, key)
    ensures Without(s, key) == s
  {
    if s != [] {
      assert s[0].0 != key;
      assert !HasKey(s[1..], key) by {
        forall i | 0 <= i < |s[1..]| ensures s[1..][i].0 != key {
          assert s[1..][i] == s[i + 1];
        }
      }
      WithoutAbsent(s[1..], key);
    }
  }

  lemma Associative(a: seq<Entry>, b: seq<Entry>, c: seq<Entry>)
    ensures a + (b + c) == a + b + c
  {
  }

  lemma {:induction false} WithoutConcat(a: seq<Entry>, b: seq<Entry>, key: int)
    ensures Without(a + b, key) == Without(a, key) + Without(b, key)
  {
    if a == [] {
      assert a + b == b;
    } else {
      WithoutConcat(a[1..], b, key);
      assert (a + b)[1..] == a[1..] + b;
      Associative(if a[0].0 == key then [] else [a[0]], Without(a[1..], key), Without(b, key));
    }
  }

  /** Removing a key that occurs once takes out exactly its position. */
  lemma {:induction false} WithoutAt(s: seq<Entry>, i: nat)
    requires DistinctKeys(s) && i < |s|
    ensures Without(s, s[i].0) == s[..i] + s[i + 1..] && HasKey(s, s[i].0) && Lookup(s, s[i].0) == s[i].1
  {
    assert s[i].0 == s[i].0;
    if i == 0 {
      assert !HasKey(s[1..], s[0].0) by {
        forall j | 0 <= j < |s[1..]| ensures s[1..][j].0 != s[0].0 {
          assert s[1..][j] == s[j + 1];
        }
      }
      WithoutAbsent(s[1..], s[0].0);
    } else {
      WithoutAt(s[1..], i - 1);
      assert s[1..][i - 1] == s[i];
      assert s[..i] == [s[0]] + s[1..][..i - 1];
      assert s[i + 1..] == s[1..][i..];
    }
  }

  // ------------------------------------------------- one LRU list: the reference

  /** A single LRU cache of the given capacity, most recent entry first. */
  function LruPut(s: seq<Entry>, cap: int, key: int, value: int): seq<Entry>
  {
    var t := [(key, value)] + Without(s, key);
    if |t| <= cap then t else t[..|t| - 1]
  }

  function LruGet(s: seq<Entry>, key: int): (seq<Entry>, int)
  {
    if HasKey(s, key) then ([(key, Lookup(s, key))] + Without(s, key), Lookup(s, key)) else (s, -1)
  }

  /** A run of operations on a single LRU cache: its final list and what the gets
      returned. */
  function LruRun(s: seq<Entry>, cap: int, ops: seq<Op>): (seq<Entry>, seq<int>)
    decreases |ops|
  {
    if ops == [] then (s, [])
    else
      var (t, out) := LruRun(s, cap, ops[..|ops| - 1]);
      match ops[|ops| - 1]
      case Put(k, v) => (LruPut(t, cap, k, v), out)
      case Get(k) => (LruGet(t, k).0, out + [LruGet(t, k).1])
  }

  // --------------------------------------------------- what a run holds, from its calls

  ghost predicate EntryExplained(e: Entry, ops: seq<Op>)
  {
    LatestPut(ops, e.0) == Some(e.1) && LastCall(ops, e.0) >= 0
  }

  /** Every entry holds what was last put, and entries are in the order of their last
      calls, the latest first. */
  ghost predicate ByRecency(s: seq<Entry>, ops: seq<Op>)
  {
    && (forall i :: 0 <= i < |s| ==> EntryExplained(s[i], ops))
    && forall i, j :: 0 <= i < j < |s| ==> LastCall(ops, s[i].0) > LastCall(ops, s[j].0)
  }

  lemma RecencyIsDistinct(s: seq<Entry>, ops: seq<Op>)
    requires ByRecency(s, ops)
    ensures DistinctKeys(s)
  {
  }

  /** Entries that a call does not name keep their place. */
  lemma UnnamedKeep(s: seq<Entry>, ops: seq<Op>, op: Op)
    requires ByRecency(s, ops) && !HasKey(s, op.key)
    ensures ByRecency(s, ops + [op])
  {
    forall i | 0 <= i < |s|
      ensures EntryExplained(s[i], ops + [op]) && LastCall(ops + [op], s[i].0) == LastCall(ops, s[i].0)
    {
      assert EntryExplained(s[i], ops) && s[i].0 != op.key;
      OneMoreCall(ops, op, s[i].0);
    }
  }

  /** Cutting an entry out leaves the others in order. */
  lemma CutKeepsOrder(s: seq<Entry>, ops: seq<Op>, i: nat, t: seq<Entry>)
    requires ByRecency(s, ops) && i < |s| && t == s[..i] + s[i + 1..]
    ensures ByRecency(t, ops)
  {
    forall j | 0 <= j < |t| ensures t[j] == s[if j < i then j else j + 1] && EntryExplained(t[j], ops) {
      assert EntryExplained(s[if j < i then j else j + 1], ops);
    }
  }

  lemma WithoutKeepsOrder(s: seq<Entry>, ops: seq<Op>, key: int)
    requires ByRecency(s, ops)
    ensures ByRecency(Without(s, key), ops)
  {
    if i :| 0 <= i < |s| && s[i].0 == key {
      RecencyIsDistinct(s, ops);
      WithoutAt(s, i);
      CutKeepsOrder(s, ops, i, Without(s, key));
    } else {
      WithoutAbsent(s, key);
    }
  }

  lemma WithoutKeys(s: seq<Entry>, key: int)
    requires DistinctKeys(s)
    ensures !HasKey(Without(s, key), key) && KeySet(Without(s, key)) == KeySet(s) - {key}
    ensures |Without(s, key)| == |s| - if HasKey(s, key) then 1 else 0
  {
    HasKeyMeansIn(s);
    HasKeyMeansIn(Without(s, key));
    if HasKey(s, key) {
      WithoutSize(s, key);
    } else {
      WithoutAbsent(s, key);
    }
  }

  lemma HasKeyMeansIn(s: seq<Entry>)
    ensures forall k :: k in KeySet(s) <==> HasKey(s, k)
  {
  }

  /** The entry that a call names goes to the front. */
  lemma NamedGoesFirst(s: seq<Entry>, ops: seq<Op>, op: Op, value: int)
    requires ByRecency(s, ops)
    requires LatestPut(ops + [op], op.key) == Some(value)
    ensures var t := [(op.key, value)] + Without(s, op.key);
            ByRecency(t, ops + [op]) && KeySet(t) == KeySet(s) + {op.key}
    ensures |Without(s, op.key)| == |s| - if HasKey(s, op.key) then 1 else 0
  {
    var rest := Without(s, op.key);
    var t := [(op.key, value)] + rest;
    RecencyIsDistinct(s, ops);
    WithoutKeepsOrder(s, ops, op.key);
    WithoutKeys(s, op.key);
    FrontKeys((op.key, value), rest);
    UnnamedKeep(rest, ops, op);
    OneMoreCall(ops, op, op.key);
    forall j | 0 <= j < |rest| ensures LastCall(ops + [op], rest[j].0) < |ops| {
      assert rest[j].0 != op.key;
      OneMoreCall(ops, op, rest[j].0);
    }
  }

  lemma FrontKeys(e: Entry, rest: seq<Entry>)
    ensures KeySet([e] + rest) == KeySet(rest) + {e.0}
  {
    HasKeyMeansIn([e] + rest);
    HasKeyMeansIn(rest);
    forall k ensures k in KeySet([e] + rest) <==> k in KeySet(rest) + {e.0} {
      KeyInPair([e], rest, k);
      assert [e][0].0 == e.0;
    }
  }

  /** The last entry is the one called longest ago. */
  lemma LastIsLeastRecent(s: seq<Entry>, ops: seq<Op>)
    requires ByRecency(s, ops) && s != []
    ensures LeastRecent(KeySet(s), ops, Last(s).0)
    ensures ByRecency(Front(s), ops) && KeySet(Front(s)) == KeySet(s) - {Last(s).0}
  {
    RecencyIsDistinct(s, ops);
    var last := |s| - 1;
    forall u | u in KeySet(s) && u != s[last].0 ensures LastCall(ops, s[last].0) < LastCall(ops, u) {
      var i :| 0 <= i < |s| && s[i].0 == u;
    }
    WithoutAt(s, last);
    WithoutKeys(s, s[last].0);
    CutKeepsOrder(s, ops, last, Front(s));
    assert Without(s, s[last].0) == Front(s);
  }

  lemma PutFollowsCalls(s: seq<Entry>, cap: nat, ops: seq<Op>, op: Op)
    requires ByRecency(s, ops) && |s| <= cap && op.Put?
    ensures var t := LruPut(s, cap, op.key, op.value);
            ByRecency(t, ops + [op]) && |t| <= cap && LruStep(KeySet(s), cap, ops, op, KeySet(t))
  {
    OneMoreCall(ops, op, op.key);
    NamedGoesFirst(s, ops, op, op.value);
    RecencyIsDistinct(s, ops);
    KeySetSize(s);
    HasKeyMeansIn(s);
    var all := [(op.key, op.value)] + Without(s, op.key);
    if |all| > cap {
      LastIsLeastRecent(all, ops + [op]);
      OverflowDropsLast(s, cap, ops, op);
    } else {
      assert cap > 0 && LruPut(s, cap, op.key, op.value) == all;
    }
  }

  lemma OverflowDropsLast(s: seq<Entry>, cap: nat, ops: seq<Op>, op: Op)
    requires ByRecency(s, ops) && |s| <= cap && op.Put?
    requires |[(op.key, op.value)] + Without(s, op.key)| > cap
    ensures LruStep(KeySet(s), cap, ops, op, KeySet(LruPut(s, cap, op.key, op.value)))
  {
    RecencyIsDistinct(s, ops);
    WithoutKeys(s, op.key);
    PutOverflows(s, cap, op.key, op.value);
    if s != [] {
      LastIsLeastRecent(s, ops);
      FrontKeys((op.key, op.value), Front(s));
      KeySetSize(s);
      HasKeyMeansIn(s);
      DropStep(KeySet(s), cap, ops, op, Last(s).0, KeySet(LruPut(s, cap, op.key, op.value)));
    }
  }

  lemma PutOverflows(s: seq<Entry>, cap: nat, key: int, value: int)
    requires !HasKey(s, key) && |s| == cap
    ensures LruPut(s, cap, key, value) == if s == [] then [] else [(key, value)] + Front(s)
  {
    WithoutAbsent(s, key);
  }

  lemma DropStep(now: set<int>, cap: nat, ops: seq<Op>, op: Op, v: int, next: set<int>)
    requires op.Put? && op.key !in now && |now| == cap > 0
    requires LeastRecent(now, ops, v) && next == now - {v} + {op.key}
    ensures LruStep(now, cap, ops, op, next)
  {
  }

  lemma GetFollowsCalls(s: seq<Entry>, ops: seq<Op>, op: Op)
    requires ByRecency(s, ops) && op.Get?
    ensures var (t, value) := LruGet(s, op.key);
            && ByRecency(t, ops + [op]) && |t| == |s| && KeySet(t) == KeySet(s)
            && Some(value) == if op.key in KeySet(s) then LatestPut(ops, op.key) else Some(-1)
  {
    HasKeyMeansIn(s);
    if HasKey(s, op.key) {
      RecencyIsDistinct(s, ops);
      var i :| 0 <= i < |s| && s[i].0 == op.key;
      WithoutAt(s, i);
      assert EntryExplained(s[i], ops);
      OneMoreCall(ops, op, op.key);
      NamedGoesFirst(s, ops, op, s[i].1);
    } else {
      UnnamedKeep(s, ops, op);
    }
  }

  /** From the empty list: which keys are held, in which order and with which values, and
      what the gets return, follow from the calls alone. */
  lemma {:induction false} RunFollowsCalls(cap: nat, ops: seq<Op>) returns (held: seq<set<int>>)
    ensures LruTrace(held, cap, ops)
    ensures var (s, out) := LruRun([], cap, ops);
            ByRecency(s, ops) && |s| <= cap && KeySet(s) == held[|ops|] && out == Results(held, ops)
    decreases |ops|
  {
    if ops == [] {
      held := [{}];
    } else {
      var last := |ops| - 1;
      var front, op := ops[..last], ops[last];
      assert ops == front + [op];
      var before := RunFollowsCalls(cap, front);
      var s := LruRun([], cap, front).0;
      if op.Put? {
        PutFollowsCalls(s, cap, front, op);
      } else {
        GetFollowsCalls(s, front, op);
      }
      held := before + [KeySet(LruRun([], cap, ops).0)];
      assert held[..last + 1] == before;
    }
  }

  // --------------------------------------------------------- the tiers as values

  /** Shapes the tiers can have: capacities are at least 1 and respected. */
  predicate Shaped(lists: seq<seq<Entry>>, caps: seq<int>)
  {
    |lists| == |caps| && forall i :: 0 <= i < |lists| ==> 1 <= caps[i] && |lists[i]| <= caps[i]
  }

  predicate AllFull(lists: seq<seq<Entry>>, caps: seq<int>)
    requires |lists| == |caps|
  {
    forall i :: 0 <= i < |lists| ==> |lists[i]| >= caps[i]
  }

  /** A tier holds something only if every hotter tier is full. */
  predicate Compact(lists: seq<seq<Entry>>, caps: seq<int>)
    requires |lists| == |caps|
  {
    forall i, j :: 0 <= i < j < |lists| && lists[j] != [] ==> |lists[i]| == caps[i]
  }

  /** Insert at the hottest of these tiers, evicting downwards. */
  function Cascade(lists: seq<seq<Entry>>, caps: seq<int>, e: Entry): (r: seq<seq<Entry>>)
    requires Shaped(lists, caps)
    ensures Shaped(r, caps)
  {
    if lists == [] then []
    else if |lists[0]| < caps[0] then [[e] + lists[0]] + lists[1..]
    else
      var last := |lists[0]| - 1;
      [[e] + lists[0][..last]] + Cascade(lists[1..], caps[1..], lists[0][last])
  }

  /** The same, starting at one of the tiers and going on level by level. */
  function CascadeFrom(lists: seq<seq<Entry>>, caps: seq<int>, level: nat, e: Entry): seq<seq<Entry>>
    requires |lists| == |caps| && level <= |lists|
    decreases |lists| - level
  {
    if level == |lists| then lists
    else
      var list := lists[level];
      if |list| < caps[level] || list == [] then lists[level := [e] + list]
      else CascadeFrom(lists[level := [e] + Front(list)], caps, level + 1, Last(list))
  }

  lemma {:induction false} CascadeByLevels(lists: seq<seq<Entry>>, caps: seq<int>, level: nat, e: Entry)
    requires Shaped(lists, caps) && level <= |lists|
    ensures Shaped(lists[level..], caps[level..])
    ensures CascadeFrom(lists, caps, level, e) == lists[..level] + Cascade(lists[level..], caps[level..], e)
    decreases |lists| - level
  {
    if level < |lists| {
      var list := lists[level];
      if |list| < caps[level] {
        assert lists[level := [e] + list] == lists[..level] + ([[e] + list] + lists[level..][1..]);
      } else {
        CascadeByLevels(lists[level := [e] + Front(list)], caps, level + 1, Last(list));
        OneLevelDown(lists, caps, level, e);
      }
    }
  }

  lemma OneLevelDown(lists: seq<seq<Entry>>, caps: seq<int>, level: nat, e: Entry)
    requires Shaped(lists, caps) && level < |lists| && |lists[level]| >= caps[level]
    ensures Shaped(lists[level..], caps[level..]) && Shaped(lists[level + 1..], caps[level + 1..])
    ensures var front := Front(lists[level]);
            var next := lists[level := [e] + front];
            && next[level + 1..] == lists[level + 1..]
            && next[..level + 1] + Cascade(lists[level + 1..], caps[level + 1..], Last(lists[level])) ==
               lists[..level] + Cascade(lists[level..], caps[level..], e)
  {
    var front, victim := Front(lists[level]), Last(lists[level]);
    var rest := Cascade(lists[level + 1..], caps[level + 1..], victim);
    assert lists[level..][1..] == lists[level + 1..] && caps[level..][1..] == caps[level + 1..];
    assert Cascade(lists[level..], caps[level..], e) == [[e] + front] + rest;
    assert lists[level := [e] + front][..level + 1] == lists[..level] + [[e] + front];
    Regrouped(lists[..level], [[e] + front], rest);
  }

  lemma Regrouped(a: seq<seq<Entry>>, b: seq<seq<Entry>>, c: seq<seq<Entry>>)
    ensures a + (b + c) == a + b + c
  {
  }

  lemma CascadeFromTop(lists: seq<seq<Entry>>, caps: seq<int>, e: Entry)
    requires Shaped(lists, caps)
    ensures CascadeFrom(lists, caps, 0, e) == Cascade(lists, caps, e)
  {
    CascadeByLevels(lists, caps, 0, e);
    assert lists[0..] == lists && caps[0..] == caps;
  }

  /** Read from hot to cold, a cascade puts the new entry in front and loses the last
      entry exactly when every tier is full. */
  lemma {:induction false} CascadeIsPushFront(lists: seq<seq<Entry>>, caps: seq<int>, e: Entry)
    requires Shaped(lists, caps)
    ensures var t := [e] + Concat(lists);
            Concat(Cascade(lists, caps, e)) == if AllFull(lists, caps) then t[..|t| - 1] else t
  {
    if lists == [] {
    } else if |lists[0]| < caps[0] {
      assert Cascade(lists, caps, e)[1..] == lists[1..];
    } else {
      var last := |lists[0]| - 1;
      var front, victim := lists[0][..last], lists[0][last];
      var rest := Cascade(lists[1..], caps[1..], victim);
      CascadeIsPushFront(lists[1..], caps[1..], victim);
      FullFromTail(lists, caps);
      assert lists[0] == front + [victim];
      assert Cascade(lists, caps, e)[0] == [e] + front && Cascade(lists, caps, e)[1..] == rest;
      PushThrough(e, front, victim, Concat(lists[1..]), Concat(rest), AllFull(lists, caps));
    }
  }

  lemma FullFromTail(lists: seq<seq<Entry>>, caps: seq<int>)
    requires |lists| == |caps| && lists != [] && |lists[0]| >= caps[0]
    ensures AllFull(lists, caps) <==> AllFull(lists[1..], caps[1..])
  {
    assert forall i :: 1 <= i < |lists| ==> lists[i] == lists[1..][i - 1] && caps[i] == caps[1..][i - 1];
  }

  /** An entry that pushes the last one of its tier on into the colder tiers. */
  lemma PushThrough(e: Entry, front: seq<Entry>, victim: Entry, cold: seq<Entry>, after: seq<Entry>, full: bool)
    requires after == if full then ([victim] + cold)[..|cold|] else [victim] + cold
    ensures var t := [e] + (front + [victim] + cold);
            [e] + front + after == if full then t[..|t| - 1] else t
  {
  }

  /** The hottest tier with room, or the number of tiers if there is none. */
  function Room(lists: seq<seq<Entry>>, caps: seq<int>): (r: nat)
    requires |lists| == |caps|
    ensures r <= |lists| && (r < |lists| ==> |lists[r]| < caps[r])
    ensures forall i :: 0 <= i < r ==> |lists[i]| >= caps[i]
  {
    if lists == [] || |lists[0]| < caps[0] then 0 else 1 + Room(lists[1..], caps[1..])
  }

  lemma {:induction false} CascadeFillsRoom(lists: seq<seq<Entry>>, caps: seq<int>, e: Entry, i: nat)
    requires Shaped(lists, caps) && i < |lists|
    ensures |Cascade(lists, caps, e)[i]| == |lists[i]| + if i == Room(lists, caps) then 1 else 0
  {
    var r := Cascade(lists, caps, e);
    if |lists[0]| < caps[0] {
      assert r == [[e] + lists[0]] + lists[1..];
    } else {
      var last := |lists[0]| - 1;
      var rest := Cascade(lists[1..], caps[1..], lists[0][last]);
      assert r == [[e] + lists[0][..last]] + rest;
      if i > 0 {
        CascadeFillsRoom(lists[1..], caps[1..], lists[0][last], i - 1);
        assert r[i] == rest[i - 1] && lists[i] == lists[1..][i - 1];
      }
    }
  }

  lemma CascadeKeepsCompact(lists: seq<seq<Entry>>, caps: seq<int>, e: Entry)
    requires Shaped(lists, caps) && Compact(lists, caps)
    ensures Compact(Cascade(lists, caps, e), caps)
  {
    var r := Cascade(lists, caps, e);
    forall i, j | 0 <= i < j < |r| && r[j] != [] ensures |r[i]| == caps[i] {
      CascadeFillsRoom(lists, caps, e, i);
      CascadeFillsRoom(lists, caps, e, j);
      assert lists[j] != [] || j == Room(lists, caps);
    }
  }

  /** Refilling the place that was just emptied restores every tier's size. */
  lemma RefillKeepsCompact(lists: seq<seq<Entry>>, caps: seq<int>, level: nat, list: seq<Entry>, e: Entry)
    requires Shaped(lists, caps) && Compact(lists, caps) && level < |lists|
    requires |list| + 1 == |lists[level]|
    ensures Shaped(lists[level := list], caps) && Compact(Cascade(lists[level := list], caps, e), caps)
  {
    var holed := lists[level := list];
    assert Room(holed, caps) == level by {
      forall i | 0 <= i < level ensures |holed[i]| == caps[i] {
        assert lists[level] != [];
      }
      assert |holed[level]| < caps[level];
    }
    var r := Cascade(holed, caps, e);
    forall i | 0 <= i < |r| ensures |r[i]| == |lists[i]| {
      CascadeFillsRoom(holed, caps, e, i);
    }
    forall i, j | 0 <= i < j < |r| && r[j] != [] ensures |r[i]| == caps[i] {
      assert lists[j] != [];
    }
  }

  lemma {:induction false} ConcatSize(lists: seq<seq<Entry>>, caps: seq<int>)
    requires Shaped(lists, caps)
    ensures |Concat(lists)| <= Sum(caps)
    ensures AllFull(lists, caps) <==> |Concat(lists)| == Sum(caps)
  {
    if lists != [] {
      ConcatSize(lists[1..], caps[1..]);
      assert forall i :: 1 <= i < |lists| ==> lists[i] == lists[1..][i - 1] && caps[i] == caps[1..][i - 1];
      assert forall i :: 0 <= i < |lists[1..]| ==> lists[1..][i] == lists[i + 1] && caps[1..][i] == caps[i + 1];
    }
  }

  // ------------------------------------------------- finding and removing a key

  /** key_to_tier names, for every key held anywhere, its only tier. */
  ghost predicate Located(keyToTier: map<int, int>, lists: seq<seq<Entry>>)
  {
    && (forall k :: k in keyToTier ==> 0 <= keyToTier[k] < |lists| && HasKey(lists[keyToTier[k]], k))
    && (forall l, k :: 0 <= l < |lists| && HasKey(lists[l], k) ==> k in keyToTier && keyToTier[k] == l)
    && (forall l :: 0 <= l < |lists| ==> DistinctKeys(lists[l]))
  }

  lemma {:induction false} KeyInConcat(lists: seq<seq<Entry>>, key: int)
    ensures HasKey(Concat(lists), key) <==> exists l :: 0 <= l < |lists| && HasKey(lists[l], key)
  {
    if lists != [] {
      KeyInConcat(lists[1..], key);
      KeyInPair(lists[0], Concat(lists[1..]), key);
      assert forall l :: 1 <= l < |lists| ==> lists[l] == lists[1..][l - 1];
    }
  }

  lemma KeyInPair(a: seq<Entry>, b: seq<Entry>, key: int)
    ensures HasKey(a + b, key) <==> HasKey(a, key) || HasKey(b, key)
  {
    if i :| 0 <= i < |a| && a[i].0 == key {
      assert (a + b)[i].0 == key;
    }
    if i :| 0 <= i < |b| && b[i].0 == key {
      assert (a + b)[|a| + i].0 == key;
    }
  }

  lemma {:induction false} LookupInPair(a: seq<Entry>, b: seq<Entry>, key: int)
    requires HasKey(a, key) || HasKey(b, key)
    ensures HasKey(a + b, key)
    ensures Lookup(a + b, key) == if HasKey(a, key) then Lookup(a, key) else Lookup(b, key)
  {
    KeyInPair(a, b, key);
    if a == [] {
      assert a + b == b;
    } else if a[0].0 != key {
      assert HasKey(a, key) ==> HasKey(a[1..], key) by {
        if i :| 0 <= i < |a| && a[i].0 == key {
          assert a[1..][i - 1].0 == key;
        }
      }
      assert HasKey(a[1..], key) ==> HasKey(a, key) by {
        if i :| 0 <= i < |a[1..]| && a[1..][i].0 == key {
          assert a[i + 1].0 == key;
        }
      }
      LookupInPair(a[1..], b, key);
      assert (a + b)[1..] == a[1..] + b;
    } else {
      assert (a + b)[0].0 == key;
    }
  }

  /** Taking the key out of its tier takes it out of the concatenation. */
  lemma {:induction false} RemoveFromTier(lists: seq<seq<Entry>>, level: nat, key: int)
    requires level < |lists| && HasKey(lists[level], key)
    requires forall l :: 0 <= l < |lists| && l != level ==> !HasKey(lists[l], key)
    ensures Concat(lists[level := Without(lists[level], key)]) == Without(Concat(lists), key)
    ensures HasKey(Concat(lists), key) && Lookup(Concat(lists), key) == Lookup(lists[level], key)
  {
    var holed := lists[level := Without(lists[level], key)];
    var rest := lists[1..];
    WithoutConcat(lists[0], Concat(rest), key);
    KeyInConcat(rest, key);
    if level == 0 {
      assert holed[1..] == rest;
      assert !HasKey(Concat(rest), key) by {
        assert forall l :: 0 <= l < |rest| ==> rest[l] == lists[l + 1];
      }
      WithoutAbsent(Concat(rest), key);
    } else {
      assert forall l :: 0 <= l < |rest| ==> rest[l] == lists[l + 1];
      RemoveFromTier(rest, level - 1, key);
      assert holed[1..] == rest[level - 1 := Without(rest[level - 1], key)];
      WithoutAbsent(lists[0], key);
    }
    LookupInPair(lists[0], Concat(rest), key);
  }

  lemma {:induction false} WithoutSize(s: seq<Entry>, key: int)
    requires DistinctKeys(s) && HasKey(s, key)
    ensures |Without(s, key)| + 1 == |s| && DistinctKeys(Without(s, key)) && !HasKey(Without(s, key), key)
    ensures forall k :: k != key ==> (HasKey(Without(s, key), k) <==> HasKey(s, k))
  {
    var i :| 0 <= i < |s| && s[i].0 == key;
    WithoutAt(s, i);
    var t := Without(s, key);
    forall k | k != key ensures HasKey(t, k) <==> HasKey(s, k) {
      if j :| 0 <= j < |s| && s[j].0 == k {
        assert t[if j < i then j else j - 1].0 == k;
      }
      if j :| 0 <= j < |t| && t[j].0 == k {
        assert s[if j < i then j else j + 1].0 == k;
      }
    }
  }

  // ------------------------------------------------------------------ operations

  /** The tiers once key has been taken out of the tier that holds it, if any. */
  function Removed(lists: seq<seq<Entry>>, keyToTier: map<int, int>, key: int): seq<seq<Entry>>
  {
    if key in keyToTier && 0 <= keyToTier[key] < |lists|
    then lists[keyToTier[key] := Without(lists[keyToTier[key]], key)]
    else lists
  }

  ghost predicate HeldWhereNamed(keyToTier: map<int, int>, lists: seq<seq<Entry>>, key: int)
  {
    key in keyToTier ==> 0 <= keyToTier[key] < |lists| && HasKey(lists[keyToTier[key]], key)
  }

  lemma RemovedLocates(lists: seq<seq<Entry>>, keyToTier: map<int, int>, key: int)
    requires Located(keyToTier, lists) && key in keyToTier
    ensures HasKey(lists[keyToTier[key]], key)
    ensures |Without(lists[keyToTier[key]], key)| + 1 == |lists[keyToTier[key]]|
    ensures Located(keyToTier - {key}, lists[keyToTier[key] := Without(lists[keyToTier[key]], key)])
  {
    var level := keyToTier[key];
    WithoutSize(lists[level], key);
    var holed, rest := lists[level := Without(lists[level], key)], keyToTier - {key};
    forall l, k | 0 <= l < |lists| && HasKey(holed[l], k) ensures k in rest && rest[k] == l {
      assert HasKey(lists[l], k);
    }
    forall k | k in rest ensures HasKey(holed[rest[k]], k) {
      assert HasKey(lists[keyToTier[k]], k);
    }
  }

  lemma RemovedShape(lists: seq<seq<Entry>>, caps: seq<int>, keyToTier: map<int, int>, key: int)
    requires Shaped(lists, caps) && Located(keyToTier, lists)
    ensures Shaped(Removed(lists, keyToTier, key), caps)
    ensures Located(keyToTier - {key}, Removed(lists, keyToTier, key))
    ensures HeldWhereNamed(keyToTier, lists, key)
  {
    if key in keyToTier {
      RemovedLocates(lists, keyToTier, key);
    } else {
      assert keyToTier - {key} == keyToTier;
    }
  }

  lemma RemovedContents(lists: seq<seq<Entry>>, keyToTier: map<int, int>, key: int)
    requires Located(keyToTier, lists)
    ensures Concat(Removed(lists, keyToTier, key)) == Without(Concat(lists), key)
    ensures HasKey(Concat(lists), key) <==> key in keyToTier
    ensures key in keyToTier ==> HasKey(lists[keyToTier[key]], key)
    ensures key in keyToTier ==> Lookup(Concat(lists), key) == Lookup(lists[keyToTier[key]], key)
  {
    KeyInConcat(lists, key);
    if key in keyToTier {
      RemoveFromTier(lists, keyToTier[key], key);
    } else {
      WithoutAbsent(Concat(lists), key);
    }
  }

  lemma PutKeepsCompact(lists: seq<seq<Entry>>, caps: seq<int>, keyToTier: map<int, int>, key: int, e: Entry)
    requires Shaped(lists, caps) && Located(keyToTier, lists) && Compact(lists, caps)
    ensures Shaped(Removed(lists, keyToTier, key), caps)
    ensures Compact(Cascade(Removed(lists, keyToTier, key), caps, e), caps)
    ensures key in keyToTier ==> !AllFull(Removed(lists, keyToTier, key), caps)
  {
    var holed := Removed(lists, keyToTier, key);
    if key in keyToTier {
      var level := keyToTier[key];
      WithoutSize(lists[level], key);
      RefillKeepsCompact(lists, caps, level, holed[level], e);
      assert |holed[level]| < caps[level];
    } else {
      CascadeKeepsCompact(lists, caps, e);
    }
  }

  /** One put on the tiers is one put on a single LRU list, keeps the tiers compact,
      and drops a key only if every tier was full and the key was new. */
  lemma PutRefinesLru(lists: seq<seq<Entry>>, caps: seq<int>, keyToTier: map<int, int>, key: int, value: int)
    requires Shaped(lists, caps) && Located(keyToTier, lists) && Compact(lists, caps)
    ensures Shaped(Removed(lists, keyToTier, key), caps)
    ensures var after := Cascade(Removed(lists, keyToTier, key), caps, (key, value));
            && Concat(after) == LruPut(Concat(lists), Sum(caps), key, value)
            && Compact(after, caps)
            && (|Concat(after)| <= |Concat(lists)| ==> AllFull(lists, caps) || key in keyToTier)
  {
    var holed := Removed(lists, keyToTier, key);
    PutKeepsCompact(lists, caps, keyToTier, key, (key, value));
    RemovedContents(lists, keyToTier, key);
    CascadeIsPushFront(holed, caps, (key, value));
    ConcatSize(holed, caps);
  }

  // ------------------------------------------------------------------ the classes

  function KeySet(s: seq<Entry>): set<int>
  {
    set i | 0 <= i < |s| :: s[i].0
  }

  lemma {:induction false} KeySetSize(s: seq<Entry>)
    requires DistinctKeys(s)
    ensures |KeySet(s)| == |s|
  {
    if s != [] {
      var last := |s| - 1;
      KeySetSize(s[..last]);
      assert KeySet(s) == KeySet(s[..last]) + {s[last].0};
    }
  }

  /** A signed capacity as it compares with an unsigned 64-bit size. */
  function Limit(capacity: int): int
  {
    if capacity < 0 then capacity + 0x1_0000_0000_0000_0000 else capacity
  }

  /** One tier. The index `mm` maps a key to its node in the list; a node is known by
      its content, since keys do not repeat. */
  class LRUcache {
    const capacity: int
    var cache: seq<Entry>
    var mm: map<int, Entry>

    ghost predicate Valid()
      reads this
    {
      && DistinctKeys(cache)
      && (forall k :: k in mm <==> HasKey(cache, k))
      && (forall k :: k in mm ==> mm[k] == (k, Lookup(cache, k)))
    }

    constructor (cap: int)
      ensures capacity == cap && cache == [] && Valid()
    {
      capacity, cache, mm := cap, [], map[];
    }

    method Full() returns (full: bool)
      requires Valid()
      ensures full <==> |cache| >= Limit(capacity)
      ensures capacity >= 0 ==> (full <==> |cache| >= capacity)
      ensures capacity < 0 && |cache| < 0x8000_0000_0000_0000 && capacity >= -0x8000_0000 ==> !full
    {
      KeySetSize(cache);
      forall k ensures k in mm <==> k in KeySet(cache) {
        assert k in KeySet(cache) <==> HasKey(cache, k);
      }
      assert mm.Keys == KeySet(cache);
      full := |mm| >= Limit(capacity);
    }

    method Get(key: int) returns (value: int)
      requires Valid()
      modifies this
      ensures Valid() && (cache, value) == LruGet(old(cache), key)
    {
      if key !in mm {
        return -1;
      }
      WithoutSize(cache, key);
      value := mm[key].1;
      var node := mm[key];
      cache := [node] + Without(cache, key);
      FrontKeeps(old(cache), key, node);
    }

    /** The index stays right exactly if the key was not held. */
    method Insert(key: int, value: int)
      requires Valid()
      modifies this
      ensures cache == [(key, value)] + old(cache) && mm == old(mm)[key := (key, value)]
      ensures Valid() <==> key !in old(mm)
    {
      cache := [(key, value)] + cache;
      mm := mm[key := (key, value)];
      if key in old(mm) {
        RepeatedKey((key, value), old(cache));
      } else {
        FrontKeeps(old(cache), key, (key, value));
        WithoutAbsent(old(cache), key);
      }
    }

    method Erase(key: int)
      requires Valid()
      modifies this
      ensures Valid() && cache == Without(old(cache), key)
    {
      if key !in mm {
        WithoutAbsent(cache, key);
        return;
      }
      WithoutSize(cache, key);
      WithoutLookup(cache, key);
      cache := Without(cache, key);
      mm := mm - {key};
    }

    method EvictLRU() returns (victim: Entry)
      requires Valid() && cache != []
      modifies this
      ensures Valid() && old(cache) == cache + [victim]
    {
      victim := cache[|cache| - 1];
      WithoutAt(cache, |cache| - 1);
      WithoutSize(cache, victim.0);
      WithoutLookup(cache, victim.0);
      cache := cache[..|cache| - 1];
      assert cache == Without(old(cache), victim.0);
      mm := mm - {victim.0};
    }

    method RemoveAndExtractValue(key: int) returns (value: Option<int>)
      requires Valid()
      modifies this
      ensures Valid() && cache == Without(old(cache), key)
      ensures value == if HasKey(old(cache), key) then Some(Lookup(old(cache), key)) else None
    {
      if key !in mm {
        WithoutAbsent(cache, key);
        return None;
      }
      value := Some(mm[key].1);
      WithoutSize(cache, key);
      WithoutLookup(cache, key);
      cache := Without(cache, key);
      mm := mm - {key};
    }
  }

  lemma RepeatedKey(e: Entry, s: seq<Entry>)
    requires HasKey(s, e.0)
    ensures !DistinctKeys([e] + s)
  {
    var i :| 0 <= i < |s| && s[i].0 == e.0;
    assert ([e] + s)[i + 1].0 == ([e] + s)[0].0;
  }

  lemma FrontKeeps(s: seq<Entry>, key: int, e: Entry)
    requires DistinctKeys(s) && e.0 == key
    ensures var t := [e] + Without(s, key);
            && DistinctKeys(t)
            && (forall k :: HasKey(t, k) <==> k == key || HasKey(s, k))
            && (forall k :: HasKey(t, k) ==> Lookup(t, k) == if k == key then e.1 else Lookup(s, k))
  {
    var rest := Without(s, key);
    var t := [e] + rest;
    if HasKey(s, key) {
      WithoutSize(s, key);
    } else {
      WithoutAbsent(s, key);
    }
    WithoutLookup(s, key);
    forall j | 0 <= j < |rest| ensures rest[j].0 != key {
      assert !HasKey(rest, key);
    }
    assert t[0].0 == key && t[1..] == rest;
    forall k ensures HasKey(t, k) <==> k == key || HasKey(s, k) {
      KeyInPair([e], rest, k);
      assert [e][0].0 == key;
    }
  }

  lemma {:induction false} WithoutLookup(s: seq<Entry>, key: int)
    ensures forall k :: k != key && HasKey(Without(s, key), k) ==> HasKey(s, k) && Lookup(Without(s, key), k) == Lookup(s, k)
  {
    if s != [] {
      WithoutLookup(s[1..], key);
      var rest := Without(s[1..], key);
      forall k | k != key && HasKey(Without(s, key), k)
        ensures HasKey(s, k) && Lookup(Without(s, key), k) == Lookup(s, k)
      {
        assert s == [s[0]] + s[1..];
        var head: seq<Entry> := if s[0].0 == key then [] else [s[0]];
        assert Without(s, key) == head + rest;
        KeyInPair(head, rest, k);
        KeyInPair([s[0]], s[1..], k);
        LookupInPair(head, rest, k);
        LookupInPair([s[0]], s[1..], k);
      }
    }
  }

  class TieredCache {
    const tiers: seq<LRUcache>
    var keyToTier: map<int, int>

    ghost function Lists(): (r: seq<seq<Entry>>)
      reads tiers
      ensures |r| == |tiers| && forall i :: 0 <= i < |tiers| ==> r[i] == tiers[i].cache
    {
      seq(|tiers|, i requires 0 <= i < |tiers| reads tiers => tiers[i].cache)
    }

    ghost function Caps(): (r: seq<int>)
      ensures |r| == |tiers| && forall i :: 0 <= i < |tiers| ==> r[i] == Limit(tiers[i].capacity)
    {
      seq(|tiers|, i requires 0 <= i < |tiers| => Limit(tiers[i].capacity))
    }

    /** What the cache holds, read from the hottest tier to the coldest. */
    ghost function Contents(): seq<Entry>
      reads tiers
    {
      Concat(Lists())
    }

    ghost predicate Tiers()
      reads tiers
    {
      && (forall i, j :: 0 <= i < j < |tiers| ==> tiers[i] != tiers[j])
      && (forall i :: 0 <= i < |tiers| ==>
            tiers[i].Valid() && 1 <= Limit(tiers[i].capacity) && |tiers[i].cache| <= Limit(tiers[i].capacity))
    }

    lemma TiersShaped()
      requires Tiers()
      ensures Shaped(Lists(), Caps())
    {
    }

    ghost predicate Valid()
      reads this, tiers
    {
      Tiers() && Located(keyToTier, Lists()) && Compact(Lists(), Caps())
    }

    /** One new tier for each capacity. */
    static method MakeTiers(capacities: seq<int>) returns (made: seq<LRUcache>)
      ensures |made| == |capacities| && forall i, j :: 0 <= i < j < |made| ==> made[i] != made[j]
      ensures forall i :: 0 <= i < |made| ==> made[i].Valid() && made[i].cache == [] && made[i].capacity == capacities[i]
      ensures forall i :: 0 <= i < |made| ==> fresh(made[i])
    {
      made := [];
      for i := 0 to |capacities|
        invariant |made| == i && forall j, k :: 0 <= j < k < |made| ==> made[j] != made[k]
        invariant forall j :: 0 <= j < |made| ==> made[j].Valid() && made[j].cache == [] && made[j].capacity == capacities[j]
        invariant forall j :: 0 <= j < |made| ==> fresh(made[j])
      {
        var tier := new LRUcache(capacities[i]);
        made := made + [tier];
      }
    }

    /** A capacity of zero would make a tier evict from an empty list; a negative one is
        never reached. */
    constructor (capacities: seq<int>)
      ensures |tiers| == |capacities| && forall i :: 0 <= i < |tiers| ==> Caps()[i] == Limit(capacities[i])
      ensures Contents() == [] && keyToTier == map[] && forall i :: 0 <= i < |tiers| ==> fresh(tiers[i])
      ensures (forall i :: 0 <= i < |capacities| ==> capacities[i] >= 0) ==> Caps() == capacities
      ensures (forall i :: 0 <= i < |tiers| ==> Caps()[i] >= 1) ==> Valid()
    {
      var made := MakeTiers(capacities);
      tiers := made;
      keyToTier := map[];
      new;
      ConcatOfEmpty(Lists());
    }

    method AddTo(level: nat, key: int, value: int)
      requires level < |tiers| && Tiers() && !HasKey(tiers[level].cache, key)
      requires |tiers[level].cache| < Limit(tiers[level].capacity)
      modifies tiers[level]
      ensures Tiers() && Lists() == old(Lists())[level := [(key, value)] + old(Lists())[level]]
    {
      tiers[level].Insert(key, value);
    }

    method DropLast(level: nat) returns (evicted: Entry)
      requires level < |tiers| && Tiers() && tiers[level].cache != []
      modifies tiers[level]
      ensures Tiers() && Lists() == old(Lists())[level := Front(old(Lists())[level])]
      ensures evicted == Last(old(Lists())[level])
    {
      evicted := tiers[level].EvictLRU();
      FrontAndLast(old(Lists())[level], tiers[level].cache, evicted);
    }

    method DropKey(level: nat, key: int)
      requires level < |tiers| && Tiers() && HasKey(tiers[level].cache, key)
      modifies tiers[level]
      ensures Tiers() && Lists() == old(Lists())[level := Without(old(Lists())[level], key)]
    {
      WithoutSize(tiers[level].cache, key);
      tiers[level].Erase(key);
    }

    method TakeKey(level: nat, key: int) returns (value: Option<int>)
      requires level < |tiers| && Tiers() && HasKey(tiers[level].cache, key)
      modifies tiers[level]
      ensures Tiers() && Lists() == old(Lists())[level := Without(old(Lists())[level], key)]
      ensures value == Some(Lookup(old(Lists())[level], key))
    {
      WithoutSize(tiers[level].cache, key);
      value := tiers[level].RemoveAndExtractValue(key);
    }

    /** Room at this tier: the entry goes in front. */
    method InsertAt(level: nat, key: int, value: int)
      requires level < |tiers| && Tiers() && Located(keyToTier, Lists()) && key !in keyToTier
      requires |tiers[level].cache| < Limit(tiers[level].capacity)
      modifies this, tiers
      ensures Tiers() && Located(keyToTier, Lists())
      ensures Lists() == old(Lists())[level := [(key, value)] + old(Lists())[level]]
      ensures keyToTier == old(keyToTier)[key := level]
    {
      InsertLocates(keyToTier, Lists(), level, (key, value));
      PlaceAt(level, key, value);
    }

    method PlaceAt(level: nat, key: int, value: int)
      requires level < |tiers| && Tiers() && !HasKey(Lists()[level], key)
      requires |tiers[level].cache| < Limit(tiers[level].capacity)
      modifies this, tiers
      ensures Tiers() && Lists() == old(Lists())[level := [(key, value)] + old(Lists())[level]]
      ensures keyToTier == old(keyToTier)[key := level]
    {
      AddTo(level, key, value);
      keyToTier := keyToTier[key := level];
    }

    method EvictAt(level: nat) returns (evicted: Entry)
      requires level < |tiers| && Tiers() && tiers[level].cache != []
      modifies this, tiers
      ensures Tiers() && Lists() == old(Lists())[level := Front(old(Lists())[level])]
      ensures evicted == Last(old(Lists())[level]) && keyToTier == old(keyToTier) - {evicted.0}
    {
      evicted := DropLast(level);
      keyToTier := keyToTier - {evicted.0};
    }

    /** A full tier: its least recent entry makes way. */
    method ReplaceAt(level: nat, key: int, value: int) returns (evictedKey: int, evictedValue: int)
      requires level < |tiers| && Tiers() && Located(keyToTier, Lists()) && key !in keyToTier
      requires |tiers[level].cache| >= Limit(tiers[level].capacity)
      modifies this, tiers
      ensures Tiers() && Located(keyToTier, Lists())
      ensures old(Lists())[level] != [] && (evictedKey, evictedValue) == Last(old(Lists())[level])
      ensures Lists() == old(Lists())[level := [(key, value)] + Front(old(Lists())[level])]
      ensures evictedKey !in keyToTier
    {
      EvictLocates(keyToTier, Lists(), level);
      TwoUpdates(Lists(), level, Front(Lists()[level]), [(key, value)] + Front(Lists()[level]));
      var evicted := EvictAt(level);
      evictedKey, evictedValue := evicted.0, evicted.1;
      InsertAt(level, key, value);
    }

    method InsertIntoTier(level: nat, key: int, value: int)
      requires level <= |tiers|
      requires Tiers() && Located(keyToTier, Lists()) && key !in keyToTier
      modifies this, tiers
      ensures Tiers() && Located(keyToTier, Lists())
      ensures Lists() == CascadeFrom(old(Lists()), Caps(), level, (key, value))
      decreases |tiers| - level, 1
    {
      if level >= |tiers| {
        assert keyToTier - {key} == keyToTier;
        keyToTier := keyToTier - {key};
        return;
      }
      var full := tiers[level].Full();
      if !full {
        InsertAt(level, key, value);
      } else {
        PushDown(level, key, value);
      }
    }

    /** A full tier passes its least recent entry on to the next one. */
    method PushDown(level: nat, key: int, value: int)
      requires level < |tiers| && Tiers() && Located(keyToTier, Lists()) && key !in keyToTier
      requires |tiers[level].cache| >= Limit(tiers[level].capacity)
      modifies this, tiers
      ensures Tiers() && Located(keyToTier, Lists())
      ensures Lists() == CascadeFrom(old(Lists()), Caps(), level, (key, value))
      decreases |tiers| - level, 0
    {
      var evictedKey, evictedValue := ReplaceAt(level, key, value);
      InsertIntoTier(level + 1, evictedKey, evictedValue);
    }

    /** What put does first: a key that is held somewhere leaves its tier. */
    method EraseKey(key: int)
      requires Tiers() && HeldWhereNamed(keyToTier, Lists(), key)
      modifies this, tiers
      ensures Tiers() && keyToTier == old(keyToTier) - {key}
      ensures Lists() == Removed(old(Lists()), old(keyToTier), key)
    {
      if key in keyToTier {
        var level := keyToTier[key];
        DropKey(level, key);
        keyToTier := keyToTier - {key};
      }
    }

    /** What get does first: the value of a held key, taken out of its tier. */
    method ExtractKey(key: int) returns (value: Option<int>)
      requires Tiers() && key in keyToTier && HeldWhereNamed(keyToTier, Lists(), key)
      modifies this, tiers
      ensures Tiers() && keyToTier == old(keyToTier) - {key}
      ensures Lists() == Removed(old(Lists()), old(keyToTier), key)
      ensures value == Some(Lookup(old(Lists()[keyToTier[key]]), key))
    {
      var level := keyToTier[key];
      value := TakeKey(level, key);
      keyToTier := keyToTier - {key};
    }

    /** put is one put on a single LRU list of the summed capacity. */
    method Put(key: int, value: int)
      requires Valid()
      modifies this, tiers
      ensures Valid()
      ensures Contents() == LruPut(old(Contents()), Sum(Caps()), key, value)
      ensures |Contents()| <= |old(Contents())| ==> AllFull(old(Lists()), Caps()) || key in old(keyToTier)
    {
      TiersShaped();
      RemovedShape(Lists(), Caps(), keyToTier, key);
      PutRefinesLru(Lists(), Caps(), keyToTier, key, value);
      EraseKey(key);
      CascadeFromTop(Lists(), Caps(), (key, value));
      InsertIntoTier(0, key, value);
    }

    /** get is one get on a single LRU list. */
    method Get(key: int) returns (value: int)
      requires Valid()
      modifies this, tiers
      ensures Valid()
      ensures (Contents(), value) == LruGet(old(Contents()), key)
    {
      RemovedContents(Lists(), keyToTier, key);
      if key !in keyToTier {
        return -1;
      }
      TiersShaped();
      RemovedShape(Lists(), Caps(), keyToTier, key);
      GetRefinesLru(Lists(), Caps(), keyToTier, key);
      var extracted := ExtractKey(key);
      if extracted.None? {
        return -1;
      }
      value := extracted.value;
      CascadeFromTop(Lists(), Caps(), (key, value));
      InsertIntoTier(0, key, value);
    }
  }

  /** Any run of puts and gets on the tiers gives the results, and leaves the
      contents, of the same run on one LRU cache of the summed capacity. */
  method RunAll(cache: TieredCache, ops: seq<Op>) returns (out: seq<int>)
    requires cache.Valid()
    modifies cache, cache.tiers
    ensures cache.Valid()
    ensures (cache.Contents(), out) == LruRun(old(cache.Contents()), Sum(cache.Caps()), ops)
  {
    out := [];
    for i := 0 to |ops|
      invariant cache.Valid()
      invariant (cache.Contents(), out) == LruRun(old(cache.Contents()), Sum(cache.Caps()), ops[..i])
    {
      assert ops[..i + 1][..i] == ops[..i];
      match ops[i]
      case Put(k, v) => cache.Put(k, v);
      case Get(k) =>
        var value := cache.Get(k);
        out := out + [value];
    }
    assert ops[..|ops|] == ops;
  }

  /** A new cache of the given capacities through any run of calls: the keys it holds are
      those the calls leave in an LRU cache of the summed capacity, hottest first, and a get
      returns what was last put under a held key and -1 otherwise. */
  method RunNew(capacities: seq<int>, ops: seq<Op>)
    returns (cache: TieredCache, out: seq<int>, ghost held: seq<set<int>>)
    requires forall i :: 0 <= i < |capacities| ==> capacities[i] >= 1
    ensures fresh(cache) && cache.Valid() && LruTrace(held, Sum(capacities), ops)
    ensures out == Results(held, ops) && KeySet(cache.Contents()) == held[|ops|]
    ensures ByRecency(cache.Contents(), ops) && |cache.Contents()| <= Sum(capacities)
  {
    cache := new TieredCache(capacities);
    out := RunAll(cache, ops);
    SumIsPositive(capacities);
    held := RunFollowsCalls(Sum(capacities), ops);
  }

  lemma {:induction false} SumIsPositive(caps: seq<int>)
    requires forall i :: 0 <= i < |caps| ==> caps[i] >= 1
    ensures Sum(caps) >= |caps|
  {
    if caps != [] {
      SumIsPositive(caps[1..]);
    }
  }

  lemma {:induction false} ConcatOfEmpty(lists: seq<seq<Entry>>)
    requires forall i :: 0 <= i < |lists| ==> lists[i] == []
    ensures Concat(lists) == []
  {
    if lists != [] {
      ConcatOfEmpty(lists[1..]);
    }
  }

  lemma InsertLocates(keyToTier: map<int, int>, lists: seq<seq<Entry>>, level: nat, e: Entry)
    requires Located(keyToTier, lists) && level < |lists| && e.0 !in keyToTier
    ensures Located(keyToTier[e.0 := level], lists[level := [e] + lists[level]])
    ensures !HasKey(lists[level], e.0)
  {
    forall k ensures HasKey([e] + lists[level], k) <==> k == e.0 || HasKey(lists[level], k) {
      KeyInPair([e], lists[level], k);
      assert [e][0].0 == e.0;
    }
  }

  function Front(s: seq<Entry>): seq<Entry>
    requires s != []
  {
    s[..|s| - 1]
  }

  function Last(s: seq<Entry>): Entry
    requires s != []
  {
    s[|s| - 1]
  }

  lemma FrontAndLast(s: seq<Entry>, front: seq<Entry>, last: Entry)
    requires s == front + [last]
    ensures front == Front(s) && last == Last(s)
  {
  }

  lemma TwoUpdates(lists: seq<seq<Entry>>, level: nat, a: seq<Entry>, b: seq<Entry>)
    requires level < |lists|
    ensures lists[level := a][level := b] == lists[level := b] && lists[level := a][level] == a
  {
  }

  lemma EvictLocates(keyToTier: map<int, int>, lists: seq<seq<Entry>>, level: nat)
    requires Located(keyToTier, lists) && level < |lists| && lists[level] != []
    ensures var victim := Last(lists[level]);
            && Located(keyToTier - {victim.0}, lists[level := Front(lists[level])])
            && victim.0 in keyToTier && !HasKey(Front(lists[level]), victim.0)
  {
    var rest, victim := Front(lists[level]), Last(lists[level]);
    WithoutAt(lists[level], |rest|);
    assert Without(lists[level], victim.0) == rest;
    WithoutSize(lists[level], victim.0);
    assert HasKey(lists[level], victim.0) && keyToTier[victim.0] == level;
    var rest' := lists[level := rest];
    var map' := keyToTier - {victim.0};
    forall l, k | 0 <= l < |lists| && HasKey(rest'[l], k) ensures k in map' && map'[k] == l {
      assert HasKey(lists[l], k);
    }
    forall k | k in map' ensures HasKey(rest'[map'[k]], k) {
      assert HasKey(lists[keyToTier[k]], k);
    }
  }

  /** One get of a held key on the tiers is one get on a single LRU list. */
  lemma GetRefinesLru(lists: seq<seq<Entry>>, caps: seq<int>, keyToTier: map<int, int>, key: int)
    requires Shaped(lists, caps) && Located(keyToTier, lists) && Compact(lists, caps) && key in keyToTier
    ensures HasKey(Concat(lists), key) && Shaped(Removed(lists, keyToTier, key), caps)
    ensures var value := Lookup(Concat(lists), key);
            var after := Cascade(Removed(lists, keyToTier, key), caps, (key, value));
            Compact(after, caps) && (Concat(after), value) == LruGet(Concat(lists), key)
  {
    RemovedContents(lists, keyToTier, key);
    var value := Lookup(Concat(lists), key);
    PutRefinesLru(lists, caps, keyToTier, key, value);
    TouchFits(lists, caps, keyToTier, key, value);
  }

  /** Moving a present key to the front never overflows the capacity. */
  lemma TouchFits(lists: seq<seq<Entry>>, caps: seq<int>, keyToTier: map<int, int>, key: int, value: int)
    requires Shaped(lists, caps) && Located(keyToTier, lists) && key in keyToTier
    ensures LruPut(Concat(lists), Sum(caps), key, value) == [(key, value)] + Without(Concat(lists), key)
  {
    RemovedShape(lists, caps, keyToTier, key);
    RemovedContents(lists, keyToTier, key);
    var level := keyToTier[key];
    WithoutSize(lists[level], key);
    var holed := Removed(lists, keyToTier, key);
    ConcatSize(holed, caps);
    assert |holed[level]| < caps[level];
  }
}
