module RateLimiter {
  // The sliding-window rate limiter: per-client and global queues of accepted times,
  // trimmed from the front. The clock is an input that does not run backwards.

  /** Clock ticks per millisecond (the clock counts nanoseconds). */
  const TICKS_PER_MS := 1000000
  const WINDOW_MS := 1000
  const WINDOW := WINDOW_MS * TICKS_PER_MS

  /** duration_cast to milliseconds: integer division that truncates toward zero. */
  function Millis(ticks: int): int
  {
    if ticks >= 0 then ticks / TICKS_PER_MS else -(-ticks / TICKS_PER_MS)
  }

  lemma MillisReachWindow(ticks: int)
    ensures Millis(ticks) >= WINDOW_MS <==> ticks >= WINDOW
  {
  }

  /** An int limit as compared with an unsigned 64-bit size. */
  function Limit(limit: int): (r: nat)
    requires -0x8000_0000 <= limit < 0x8000_0000
  {
    if limit >= 0 then limit else limit + 0x1_0000_0000_0000_0000
  }

  datatype Request = Request(client: string, time: int)

  function Times(rs: seq<Request>): (r: seq<int>)
    ensures |r| == |rs| && forall i :: 0 <= i < |rs| ==> r[i] == rs[i].time
  {
    seq(|rs|, i requires 0 <= i < |rs| => rs[i].time)
  }

  /** The times of one client's requests. */
  function TimesOf(rs: seq<Request>, client: string): seq<int>
  {
    if rs == [] then []
    else
      var last := rs[|rs| - 1];
      TimesOf(rs[..|rs| - 1], client) + if last.client == client then [last.time] else []
  }

  lemma {:induction false} TimesOfAtMost(rs: seq<Request>, client: string)
    ensures |TimesOf(rs, client)| <= |rs|
  {
    if rs != [] {
      TimesOfAtMost(rs[..|rs| - 1], client);
    }
  }

  predicate Ordered(ts: seq<int>, until: int)
  {
    && (forall i, j :: 0 <= i < j < |ts| ==> ts[i] <= ts[j])
    && (forall i :: 0 <= i < |ts| ==> ts[i] <= until)
  }

  lemma {:induction false} TimesOfOrdered(rs: seq<Request>, client: string, until: int)
    requires Ordered(Times(rs), until)
    ensures Ordered(TimesOf(rs, client), until)
    decreases |rs|
  {
    if rs != [] {
      var front, last := rs[..|rs| - 1], rs[|rs| - 1];
      forall i | 0 <= i < |front| ensures Times(front)[i] == Times(rs)[i] <= last.time {
        assert Times(rs)[|rs| - 1] == last.time;
      }
      assert Times(rs)[|rs| - 1] <= until;
      TimesOfOrdered(front, client, last.time);
    }
  }

  // ------------------------------------------------------------ counting in windows

  /** How many of the times lie in [from, to). */
  function Count(ts: seq<int>, from: int, to: int): nat
  {
    if ts == [] then 0
    else
      var last := |ts| - 1;
      Count(ts[..last], from, to) + if from <= ts[last] < to then 1 else 0
  }

  lemma {:induction false} CountSplits(a: seq<int>, b: seq<int>, from: int, to: int)
    ensures Count(a + b, from, to) == Count(a, from, to) + Count(b, from, to)
  {
    if b == [] {
      assert a + b == a;
    } else {
      var last := |b| - 1;
      CountSplits(a, b[..last], from, to);
      assert (a + b)[..|a + b| - 1] == a + b[..last];
    }
  }

  lemma {:induction false} CountAtMost(ts: seq<int>, from: int, to: int)
    ensures Count(ts, from, to) <= |ts|
  {
    if ts != [] {
      CountAtMost(ts[..|ts| - 1], from, to);
    }
  }

  lemma {:induction false} AllBefore(ts: seq<int>, from: int, to: int)
    requires forall i :: 0 <= i < |ts| ==> ts[i] < from
    ensures Count(ts, from, to) == 0
  {
    if ts != [] {
      AllBefore(ts[..|ts| - 1], from, to);
    }
  }

  lemma {:induction false} AllWithin(ts: seq<int>, from: int, to: int)
    requires forall i :: 0 <= i < |ts| ==> from <= ts[i] < to
    ensures Count(ts, from, to) == |ts|
  {
    if ts != [] {
      AllWithin(ts[..|ts| - 1], from, to);
    }
  }

  predicate SpacedAt(ts: seq<int>, limit: nat, i: int)
  {
    limit <= i < |ts| ==> ts[i - limit] + WINDOW <= ts[i]
  }

  /** Any limit + 1 consecutive times span at least a window. */
  ghost predicate Spaced(ts: seq<int>, limit: nat)
  {
    forall i :: SpacedAt(ts, limit, i)
  }

  lemma LastWindowIsBounded(ts: seq<int>, until: int, limit: nat, from: int)
    requires Ordered(ts, until) && Spaced(ts, limit) && ts != []
    requires from <= ts[|ts| - 1] < from + WINDOW
    ensures Count(ts, from, from + WINDOW) <= limit
  {
    var last := |ts| - 1;
    CountAtMost(ts, from, from + WINDOW);
    if |ts| > limit {
      var k := |ts| - limit;
      var early, recent := ts[..k], ts[k..];
      assert early + recent == ts;
      CountSplits(early, recent, from, from + WINDOW);
      CountAtMost(recent, from, from + WINDOW);
      assert SpacedAt(ts, limit, last);
      forall i | 0 <= i < |early| ensures early[i] < from {
        assert i == last - limit || ts[i] <= ts[last - limit];
      }
      AllBefore(early, from, from + WINDOW);
    }
  }

  /** Spacing bounds the number of times in every half-open interval of window length,
      wherever it starts. */
  lemma {:induction false} SpacedMeansBounded(ts: seq<int>, until: int, limit: nat, from: int)
    requires Ordered(ts, until) && Spaced(ts, limit)
    ensures Count(ts, from, from + WINDOW) <= limit
  {
    if ts != [] {
      var last := |ts| - 1;
      if from <= ts[last] < from + WINDOW {
        LastWindowIsBounded(ts, until, limit, from);
      } else {
        forall i ensures SpacedAt(ts[..last], limit, i) {
          assert SpacedAt(ts, limit, i);
        }
        SpacedMeansBounded(ts[..last], until, limit, from);
      }
    }
  }

  // ------------------------------------------------------------------- the queues

  /** The queue is what is left of the accepted times once some expired ones have been
      dropped from the front. */
  ghost predicate Tracks(queue: seq<int>, ts: seq<int>, now: int)
  {
    && |queue| <= |ts| && queue == ts[|ts| - |queue|..]
    && forall i :: 0 <= i < |ts| - |queue| ==> ts[i] + WINDOW <= now
  }

  /** Nothing expired at the front. */
  ghost predicate Trimmed(queue: seq<int>, now: int)
  {
    queue == [] || now < queue[0] + WINDOW
  }

  /** Trimmed at the present time, the queue is exactly the last window. */
  lemma TrimmedIsLastWindow(queue: seq<int>, ts: seq<int>, now: int)
    requires Tracks(queue, ts, now) && Ordered(ts, now) && Trimmed(queue, now)
    ensures |queue| == Count(ts, now - WINDOW + 1, now + 1)
  {
    var dropped := ts[..|ts| - |queue|];
    var from, to := now - WINDOW + 1, now + 1;
    assert dropped + queue == ts;
    CountSplits(dropped, queue, from, to);
    assert Count(dropped, from, to) == 0 by {
      AllBefore(dropped, from, to);
    }
    assert Count(queue, from, to) == |queue| by {
      forall i | 0 <= i < |queue| ensures from <= queue[i] < to {
        assert queue[i] == ts[|ts| - |queue| + i] && queue[0] == ts[|ts| - |queue|];
      }
      AllWithin(queue, from, to);
    }
  }

  /** A request admitted with fewer than limit in the queue keeps the spacing. */
  lemma AdmitKeepsSpaced(queue: seq<int>, ts: seq<int>, now: int, limit: nat)
    requires Tracks(queue, ts, now) && Spaced(ts, limit) && |queue| < limit
    ensures Spaced(ts + [now], limit) && Tracks(queue + [now], ts + [now], now)
  {
    var ts' := ts + [now];
    forall i ensures SpacedAt(ts', limit, i) {
      assert SpacedAt(ts, limit, i);
    }
  }

  lemma DropKeepsTracks(queue: seq<int>, ts: seq<int>, now: int)
    requires Tracks(queue, ts, now) && queue != [] && queue[0] + WINDOW <= now
    ensures Tracks(queue[1..], ts, now)
  {
  }

  function QueueOf(queues: map<string, seq<int>>, client: string): seq<int>
  {
    if client in queues then queues[client] else []
  }

  ghost predicate ClientOk(queues: map<string, seq<int>>, accepted: seq<Request>, now: int, limit: nat, client: string)
  {
    var ts := TimesOf(accepted, client);
    Tracks(QueueOf(queues, client), ts, now) && Spaced(ts, limit)
  }

  ghost predicate ClientsOk(queues: map<string, seq<int>>, accepted: seq<Request>, now: int, limit: nat)
  {
    forall c :: ClientOk(queues, accepted, now, limit, c)
  }

  lemma ClientsLater(queues: map<string, seq<int>>, accepted: seq<Request>, now: int, limit: nat, later: int)
    requires ClientsOk(queues, accepted, now, limit) && now <= later
    ensures ClientsOk(queues, accepted, later, limit)
  {
    forall c ensures ClientOk(queues, accepted, later, limit, c) {
      assert ClientOk(queues, accepted, now, limit, c);
    }
  }

  lemma ClientsTrim(queues: map<string, seq<int>>, accepted: seq<Request>, now: int, limit: nat, client: string, queue: seq<int>)
    requires ClientsOk(queues, accepted, now, limit)
    requires Tracks(queue, TimesOf(accepted, client), now)
    ensures ClientsOk(queues[client := queue], accepted, now, limit)
  {
    var queues' := queues[client := queue];
    forall c ensures ClientOk(queues', accepted, now, limit, c) {
      assert ClientOk(queues, accepted, now, limit, c);
    }
  }

  lemma ClientsAdmit(queues: map<string, seq<int>>, accepted: seq<Request>, now: int, limit: nat, client: string)
    requires ClientsOk(queues, accepted, now, limit) && |QueueOf(queues, client)| < limit
    ensures ClientsOk(queues[client := QueueOf(queues, client) + [now]], accepted + [Request(client, now)], now, limit)
  {
    var accepted' := accepted + [Request(client, now)];
    var queues' := queues[client := QueueOf(queues, client) + [now]];
    assert accepted'[..|accepted'| - 1] == accepted;
    forall c ensures ClientOk(queues', accepted', now, limit, c) {
      assert ClientOk(queues, accepted, now, limit, c);
      if c == client {
        AdmitKeepsSpaced(QueueOf(queues, c), TimesOf(accepted, c), now, limit);
      } else {
        assert TimesOf(accepted', c) == TimesOf(accepted, c);
      }
    }
  }

  ghost predicate GlobalOk(queue: seq<int>, accepted: seq<Request>, now: int, limit: nat)
  {
    Ordered(Times(accepted), now) && Tracks(queue, Times(accepted), now) && Spaced(Times(accepted), limit)
  }

  lemma GlobalLater(queue: seq<int>, accepted: seq<Request>, now: int, limit: nat, later: int)
    requires GlobalOk(queue, accepted, now, limit) && now <= later
    ensures GlobalOk(queue, accepted, later, limit)
  {
  }

  lemma GlobalAdmit(queue: seq<int>, accepted: seq<Request>, now: int, limit: nat, client: string)
    requires GlobalOk(queue, accepted, now, limit) && |queue| < limit
    ensures GlobalOk(queue + [now], accepted + [Request(client, now)], now, limit)
  {
    AdmitKeepsSpaced(queue, Times(accepted), now, limit);
    assert Times(accepted + [Request(client, now)]) == Times(accepted) + [now];
  }

  class Limiter {
    const globalLimit: int
    const clientLimit: int
    var globalQueue: seq<int>
    var clientQueues: map<string, seq<int>>

    /** History: the accepted requests in order, and the time of the last call. */
    ghost var accepted: seq<Request>
    ghost var last: int

    ghost predicate Valid()
      reads this
    {
      && -0x8000_0000 <= globalLimit < 0x8000_0000 && -0x8000_0000 <= clientLimit < 0x8000_0000
      && GlobalOk(globalQueue, accepted, last, Limit(globalLimit))
      && ClientsOk(clientQueues, accepted, last, Limit(clientLimit))
    }

    constructor (globalPerSec: int, clientPerSec: int, ghost start: int)
      requires -0x8000_0000 <= globalPerSec < 0x8000_0000 && -0x8000_0000 <= clientPerSec < 0x8000_0000
      ensures Valid() && accepted == [] && last == start
      ensures globalLimit == globalPerSec && clientLimit == clientPerSec
    {
      globalLimit, clientLimit := globalPerSec, clientPerSec;
      globalQueue, clientQueues := [], map[];
      accepted, last := [], start;
      new;
      assert Times([])[0..] == [];
      forall c ensures ClientOk(map[], [], start, Limit(clientPerSec), c) {
        assert TimesOf([], c)[0..] == [];
      }
    }

    static method Cleanup(queue: seq<int>, now: int, ghost ts: seq<int>) returns (trimmed: seq<int>)
      requires Tracks(queue, ts, now)
      ensures Tracks(trimmed, ts, now) && Trimmed(trimmed, now)
    {
      trimmed := queue;
      while trimmed != []
        invariant Tracks(trimmed, ts, now)
        decreases |trimmed|
      {
        var diff := Millis(now - trimmed[0]);
        MillisReachWindow(now - trimmed[0]);
        if diff >= WINDOW_MS {
          DropKeepsTracks(trimmed, ts, now);
          trimmed := trimmed[1..];
        } else {
          break;
        }
      }
    }

    /** Drops what has expired from the global queue and from the client's. */
    method Trim(client: string, now: int)
      requires Valid() && last <= now
      modifies this
      ensures Valid() && last == now && accepted == old(accepted)
      ensures |globalQueue| == Count(Times(accepted), now - WINDOW + 1, now + 1)
      ensures |QueueOf(clientQueues, client)| == Count(TimesOf(accepted, client), now - WINDOW + 1, now + 1)
    {
      GlobalLater(globalQueue, accepted, last, Limit(globalLimit), now);
      ClientsLater(clientQueues, accepted, last, Limit(clientLimit), now);
      assert ClientOk(clientQueues, accepted, now, Limit(clientLimit), client);
      last := now;
      globalQueue := Cleanup(globalQueue, now, Times(accepted));
      TrimmedIsLastWindow(globalQueue, Times(accepted), now);
      var clientQueue := Cleanup(QueueOf(clientQueues, client), now, TimesOf(accepted, client));
      TimesOfOrdered(accepted, client, now);
      TrimmedIsLastWindow(clientQueue, TimesOf(accepted, client), now);
      ClientsTrim(clientQueues, accepted, now, Limit(clientLimit), client, clientQueue);
      clientQueues := clientQueues[client := clientQueue];
    }

    /** A request is refused exactly when its trailing window already holds the global
        limit of accepted requests, or the client's limit of that client's. A negative limit
        refuses nothing, short of 2^63 accepted requests. */
    method AllowRequest(client: string, now: int) returns (ok: bool)
      requires Valid() && last <= now
      modifies this
      ensures Valid() && last == now
      ensures accepted == if ok then old(accepted) + [Request(client, now)] else old(accepted)
      ensures !ok <==>
              || Count(Times(old(accepted)), now - WINDOW + 1, now + 1) >= Limit(globalLimit)
              || Count(TimesOf(old(accepted), client), now - WINDOW + 1, now + 1) >= Limit(clientLimit)
      ensures globalLimit >= 0 && clientLimit >= 0 ==>
              (!ok <==>
               || Count(Times(old(accepted)), now - 1_000_000_000 + 1, now + 1) >= globalLimit
               || Count(TimesOf(old(accepted), client), now - 1_000_000_000 + 1, now + 1) >= clientLimit)
      ensures |old(accepted)| < 0x8000_0000_0000_0000 ==>
              (!ok <==>
               || 0 <= globalLimit <= Count(Times(old(accepted)), now - 1_000_000_000 + 1, now + 1)
               || 0 <= clientLimit <= Count(TimesOf(old(accepted), client), now - 1_000_000_000 + 1, now + 1))
    {
      CountAtMost(Times(accepted), now - WINDOW + 1, now + 1);
      CountAtMost(TimesOf(accepted, client), now - WINDOW + 1, now + 1);
      TimesOfAtMost(accepted, client);
      Trim(client, now);
      if |globalQueue| >= Limit(globalLimit) {
        return false;
      }
      if |QueueOf(clientQueues, client)| >= Limit(clientLimit) {
        return false;
      }
      GlobalAdmit(globalQueue, accepted, now, Limit(globalLimit), client);
      ClientsAdmit(clientQueues, accepted, now, Limit(clientLimit), client);
      accepted := accepted + [Request(client, now)];
      globalQueue := globalQueue + [now];
      clientQueues := clientQueues[client := QueueOf(clientQueues, client) + [now]];
      ok := true;
    }
  }

  /** At every moment of every run, and for every half-open interval of one window,
      wherever it starts: at most globalLimit requests were accepted in it, and at most
      clientLimit of any one client. */
  lemma EveryWindowIsBounded(limiter: Limiter, from: int, client: string)
    requires limiter.Valid()
    ensures Count(Times(limiter.accepted), from, from + WINDOW) <= Limit(limiter.globalLimit)
    ensures Count(TimesOf(limiter.accepted, client), from, from + WINDOW) <= Limit(limiter.clientLimit)
    ensures limiter.globalLimit >= 0 ==> Count(Times(limiter.accepted), from, from + 1_000_000_000) <= limiter.globalLimit
    ensures limiter.clientLimit >= 0 ==>
              Count(TimesOf(limiter.accepted, client), from, from + 1_000_000_000) <= limiter.clientLimit
  {
    TimesOfOrdered(limiter.accepted, client, limiter.last);
    assert ClientOk(limiter.clientQueues, limiter.accepted, limiter.last, Limit(limiter.clientLimit), client);
    SpacedMeansBounded(Times(limiter.accepted), limiter.last, Limit(limiter.globalLimit), from);
    SpacedMeansBounded(TimesOf(limiter.accepted, client), limiter.last, Limit(limiter.clientLimit), from);
  }
}
