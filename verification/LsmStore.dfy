module LsmStore {
  // The write path of a log-structured store: a text log, a small in-memory table and a
  // sequence of immutable sorted tables, the newest last.

  import opened Options
  import opened Tokens

  type Pair = (string, string)

  const FLUSH_THRESHOLD := 3
  const NOT_FOUND := "NOT FOUND!"

  // ------------------------------------------------------- the log: printer and parser

  function Print(p: Pair): string { p.0 + (" " + (p.1 + "\n")) }

  function Lines(log: seq<Pair>): (r: seq<string>)
    ensures |r| == |log| && forall i :: 0 <= i < |log| ==> r[i] == Print(log[i])
  {
    seq(|log|, i requires 0 <= i < |log| => Print(log[i]))
  }

  function PrintAll(log: seq<Pair>): string { Text(Lines(log)) }

  /** One pass of the reading loop; a key without a value ends it and is dropped. */
  function ReadPair(s: string): (r: Option<(Pair, string)>)
    ensures r.Some? ==> |r.value.1| < |s|
  {
    match ReadWord(s)
    case None => None
    case Some((key, s1)) =>
      match ReadWord(s1)
      case None => None
      case Some((value, s2)) => Some(((key, value), s2))
  }

  function Parse(s: string): seq<Pair>
    decreases |s|
  {
    match ReadPair(s)
    case None => []
    case Some((p, rest)) => [p] + Parse(rest)
  }

  /** Both halves are non-empty and free of white space. */
  predicate Writable(p: Pair)
  {
    Token(p.0) && Token(p.1)
  }

  predicate AllWritable(log: seq<Pair>)
  {
    forall i :: 0 <= i < |log| ==> Writable(log[i])
  }

  lemma ReadsPair(p: Pair, tail: string)
    requires Writable(p)
    ensures ReadPair(Print(p) + tail) == Some((p, "\n" + tail))
  {
    var rest := " " + (p.1 + ("\n" + tail));
    assert Print(p) + tail == "" + p.0 + rest;
    assert IsSpace(rest[0]);
    ReadsWord("", p.0, rest);
    assert rest == " " + p.1 + ("\n" + tail);
    ReadsWord(" ", p.1, "\n" + tail);
  }

  lemma ParseSkipsNewline(s: string)
    ensures Parse("\n" + s) == Parse(s)
  {
    ReadWordSkipsBlank("\n", s);
    assert ReadPair("\n" + s) == ReadPair(s);
  }

  lemma PrintFront(log: seq<Pair>)
    requires log != []
    ensures PrintAll(log) == Print(log[0]) + PrintAll(log[1..])
  {
    TextFront(Lines(log));
    assert Lines(log)[1..] == Lines(log[1..]);
  }

  lemma PrintLast(log: seq<Pair>, p: Pair)
    ensures PrintAll(log + [p]) == PrintAll(log) + Print(p)
  {
    assert Lines(log + [p]) == Lines(log) + [Print(p)];
  }

  lemma {:induction false} RoundTrip(log: seq<Pair>)
    requires AllWritable(log)
    ensures Parse(PrintAll(log)) == log
    decreases |log|
  {
    if log == [] {
      BlankHasNoWord("");
    } else {
      PrintFront(log);
      ReadsPair(log[0], PrintAll(log[1..]));
      ParseSkipsNewline(PrintAll(log[1..]));
      RoundTrip(log[1..]);
    }
  }

  lemma {:induction false} ParseProduces(s: string)
    ensures AllWritable(Parse(s))
    decreases |s|
  {
    var read := ReadPair(s);
    if read.Some? {
      ReadIsToken(s);
      ReadIsToken(ReadWord(s).value.1);
      ParseProduces(read.value.1);
    }
  }

  /** The log survives a restart if and only if all its keys and values are words. */
  lemma RoundTripIff(log: seq<Pair>)
    ensures Parse(PrintAll(log)) == log <==> AllWritable(log)
  {
    if AllWritable(log) {
      RoundTrip(log);
    } else {
      ParseProduces(PrintAll(log));
    }
  }

  // ------------------------------------------------------------------ order of keys

  /** The order of strings by their first different character. */
  predicate Less(a: string, b: string)
  {
    b != [] && (a == [] || a[0] < b[0] || (a[0] == b[0] && Less(a[1..], b[1..])))
  }

  lemma {:induction false} Trichotomy(a: string, b: string)
    ensures Less(a, b) || a == b || Less(b, a)
    ensures !(Less(a, b) && Less(b, a)) && !Less(a, a)
  {
    if a != [] && b != [] {
      Trichotomy(a[1..], b[1..]);
      assert a == [a[0]] + a[1..] && b == [b[0]] + b[1..];
    } else if a != [] {
      Trichotomy(a[1..], []);
    }
  }

  lemma {:induction false} Transitive(a: string, b: string, c: string)
    requires Less(a, b) && Less(b, c)
    ensures Less(a, c)
  {
    if a != [] && a[0] == b[0] == c[0] {
      Transitive(a[1..], b[1..], c[1..]);
    }
  }

  predicate IsLeast(k: string, keys: set<string>)
  {
    k in keys && forall x :: x in keys ==> x == k || Less(k, x)
  }

  lemma {:induction false} LeastExists(keys: set<string>)
    requires keys != {}
    ensures exists k :: IsLeast(k, keys)
    decreases |keys|
  {
    var x :| x in keys;
    var rest := keys - {x};
    if rest == {} {
      forall y | y in keys ensures y == x {
        assert y in rest || y == x;
      }
      assert IsLeast(x, keys);
    } else {
      LeastExists(rest);
      var k :| IsLeast(k, rest);
      Trichotomy(x, k);
      if Less(x, k) {
        forall y | y in keys ensures y == x || Less(x, y) {
          if y != x && y != k {
            Transitive(x, k, y);
          }
        }
        assert IsLeast(x, keys);
      } else {
        assert IsLeast(k, keys);
      }
    }
  }

  // --------------------------------------------------------------- sorted tables

  predicate Sorted(es: seq<Pair>)
  {
    forall i, j :: 0 <= i < j < |es| ==> Less(es[i].0, es[j].0)
  }

  /** The entries of a table in key order. */
  ghost function Entries(m: map<string, string>): seq<Pair>
    decreases |m.Keys|
  {
    if m.Keys == {} then []
    else
      LeastExists(m.Keys);
      var k :| IsLeast(k, m.Keys);
      assert (m - {k}).Keys == m.Keys - {k};
      [(k, m[k])] + Entries(m - {k})
  }

  function MapOf(es: seq<Pair>): map<string, string>
  {
    if es == [] then map[] else MapOf(es[1..])[es[0].0 := es[0].1]
  }

  function Lookup(m: map<string, string>, key: string): string
  {
    if key in m then m[key] else NOT_FOUND
  }

  /** The sorted entries are those of the table, each once. */
  lemma {:induction false} EntriesOf(m: map<string, string>)
    ensures MapOf(Entries(m)) == m && Sorted(Entries(m)) && |Entries(m)| == |m.Keys|
    ensures forall i :: 0 <= i < |Entries(m)| ==> Entries(m)[i].0 in m
    decreases |m.Keys|
  {
    if m.Keys != {} {
      LeastExists(m.Keys);
      var es := Entries(m);
      var k := es[0].0;
      assert (m - {k}).Keys == m.Keys - {k};
      EntriesOf(m - {k});
      assert es[1..] == Entries(m - {k});
      assert m == (m - {k})[k := m[k]];
      forall i | 0 < i < |es| ensures es[i].0 in m && Less(k, es[i].0) {
        assert es[i] == es[1..][i - 1];
      }
      SortedFromFront(es);
    }
  }

  lemma SortedFromFront(es: seq<Pair>)
    requires es != [] && Sorted(es[1..]) && forall i :: 0 < i < |es| ==> Less(es[0].0, es[i].0)
    ensures Sorted(es)
  {
    forall i, j | 0 <= i < j < |es| ensures Less(es[i].0, es[j].0) {
      if i > 0 {
        assert es[i] == es[1..][i - 1] && es[j] == es[1..][j - 1];
      }
    }
  }

  lemma {:induction false} MapOfFinds(es: seq<Pair>, key: string)
    requires Sorted(es)
    ensures forall i :: 0 <= i < |es| && es[i].0 == key ==> key in MapOf(es) && MapOf(es)[key] == es[i].1
    ensures key in MapOf(es) ==> exists i :: 0 <= i < |es| && es[i].0 == key
    decreases |es|
  {
    if es != [] {
      var rest := es[1..];
      assert forall i :: 0 <= i < |rest| ==> rest[i] == es[i + 1];
      MapOfFinds(rest, key);
      forall i | 0 <= i < |es| && es[i].0 == key ensures key in MapOf(es) && MapOf(es)[key] == es[i].1 {
        if i > 0 {
          Trichotomy(es[0].0, es[i].0);
          assert es[i] == rest[i - 1];
        }
      }
    }
  }

  /** Keys on one side of an entry lie on that side of the table. */
  lemma Beside(es: seq<Pair>, mid: int, key: string)
    requires Sorted(es) && 0 <= mid < |es| && es[mid].0 != key
    ensures Less(es[mid].0, key) ==> forall i :: 0 <= i <= mid ==> es[i].0 != key
    ensures !Less(es[mid].0, key) ==> forall i :: mid <= i < |es| ==> es[i].0 != key
  {
    Trichotomy(es[mid].0, key);
    forall i | 0 <= i <= mid && es[i].0 == key ensures !Less(es[mid].0, key) {
      Trichotomy(es[i].0, es[mid].0);
    }
    forall i | mid <= i < |es| && es[i].0 == key ensures Less(es[mid].0, key) {
      assert i > mid;
    }
  }

  datatype SSTable = SSTable(entries: seq<Pair>)
  {
    /** Binary search. */
    method SearchKey(key: string) returns (value: string)
      requires Sorted(entries)
      ensures value == Lookup(MapOf(entries), key)
    {
      MapOfFinds(entries, key);
      var left, right := 0, |entries| - 1;
      while left <= right
        invariant 0 <= left <= right + 1 <= |entries|
        invariant forall i :: 0 <= i < left || right < i < |entries| ==> entries[i].0 != key
      {
        var mid := left + (right - left) / 2;
        if entries[mid].0 == key {
          return entries[mid].1;
        }
        Beside(entries, mid, key);
        if Less(entries[mid].0, key) {
          left := mid + 1;
        } else {
          right := mid - 1;
        }
      }
      return NOT_FOUND;
    }
  }

  /** Builds a sorted table by walking a memory table in key order. */
  method BuildSSTable(memTable: map<string, string>) returns (table: SSTable)
    ensures table.entries == Entries(memTable)
  {
    var es, rest := [], memTable;
    while rest.Keys != {}
      invariant es + Entries(rest) == Entries(memTable)
      decreases |rest.Keys|
    {
      LeastExists(rest.Keys);
      var k := LeastKey(rest.Keys);
      LeastIsUnique(rest.Keys, k, Entries(rest)[0].0);
      es := es + [(k, rest[k])];
      assert (rest - {k}).Keys == rest.Keys - {k};
      rest := rest - {k};
    }
    table := SSTable(es);
  }

  lemma LeastIsUnique(keys: set<string>, a: string, b: string)
    requires IsLeast(a, keys) && IsLeast(b, keys)
    ensures a == b
  {
    Trichotomy(a, b);
  }

  method LeastKey(keys: set<string>) returns (k: string)
    requires keys != {}
    ensures IsLeast(k, keys)
  {
    k :| k in keys;
    var rest := keys - {k};
    while rest != {}
      invariant rest <= keys && k in keys
      invariant forall x :: x in keys && x !in rest ==> x == k || Less(k, x)
      decreases |rest|
    {
      var x :| x in rest;
      Trichotomy(x, k);
      if Less(x, k) {
        forall y | y in keys && y !in rest ensures Less(x, y) {
          if y != k {
            Transitive(x, k, y);
          }
        }
        k := x;
      }
      rest := rest - {x};
    }
  }

  // ------------------------------------------------------------------- the store

  datatype Store = Store(memTable: map<string, string>, sstables: seq<SSTable>)

  ghost function Flushed(s: Store): Store
  {
    Store(map[], s.sstables + [SSTable(Entries(s.memTable))])
  }

  /** Update the memory table, and turn it into a sorted table when it is full. */
  ghost function Insert(s: Store, p: Pair): Store
  {
    var t := s.(memTable := s.memTable[p.0 := p.1]);
    if |t.memTable| >= FLUSH_THRESHOLD then Flushed(t) else t
  }

  ghost function Replay(log: seq<Pair>): Store
  {
    if log == [] then Store(map[], []) else Insert(Replay(log[..|log| - 1]), log[|log| - 1])
  }

  lemma ReplayOneMore(log: seq<Pair>, i: nat)
    requires i < |log|
    ensures Replay(log[..i + 1]) == Insert(Replay(log[..i]), (log[i].0, log[i].1))
  {
    assert log[..i + 1][..i] == log[..i];
    assert log[i] == (log[i].0, log[i].1);
  }

  /** The memory table first, then the sorted tables from the newest. */
  function Read(s: Store, key: string): string
  {
    if key in s.memTable then s.memTable[key] else ReadTables(s.sstables, key)
  }

  function ReadTables(ts: seq<SSTable>, key: string): string
  {
    if ts == [] then NOT_FOUND
    else
      var value := Lookup(MapOf(ts[|ts| - 1].entries), key);
      if value != NOT_FOUND then value else ReadTables(ts[..|ts| - 1], key)
  }

  /** All tables as one: newer entries hide older ones. */
  function TablesContent(ts: seq<SSTable>): map<string, string>
  {
    if ts == [] then map[] else TablesContent(ts[..|ts| - 1]) + MapOf(ts[|ts| - 1].entries)
  }

  function Content(s: Store): map<string, string>
  {
    TablesContent(s.sstables) + s.memTable
  }

  /** No value looks like the answer for a missing key. */
  predicate Plain(m: map<string, string>)
  {
    forall k :: k in m ==> m[k] != NOT_FOUND
  }

  /** Nothing stored looks missing, and every sorted table is sorted. */
  ghost predicate Readable(s: Store)
  {
    Plain(s.memTable) && AllOk(s.sstables)
  }

  ghost predicate Valid(s: Store)
  {
    Readable(s) && |s.memTable| < FLUSH_THRESHOLD
  }

  ghost predicate AllOk(ts: seq<SSTable>)
  {
    forall i :: 0 <= i < |ts| ==> TableOk(ts[i])
  }

  ghost predicate TableOk(t: SSTable)
  {
    Sorted(t.entries) && Plain(MapOf(t.entries))
  }

  lemma FlushWorks(s: Store)
    requires Readable(s)
    ensures Content(Flushed(s)) == Content(s) && Valid(Flushed(s))
  {
    EntriesOf(s.memTable);
    FlushedTable(s, SSTable(Entries(s.memTable)));
  }

  lemma FlushedTable(s: Store, t: SSTable)
    requires Readable(s) && Sorted(t.entries) && MapOf(t.entries) == s.memTable
    ensures var s' := Store(map[], s.sstables + [t]);
            Content(s') == Content(s) && Valid(s')
  {
    PushTable(s.sstables, t);
  }

  lemma PushTable(ts: seq<SSTable>, t: SSTable)
    requires AllOk(ts) && TableOk(t)
    ensures AllOk(ts + [t]) && TablesContent(ts + [t]) == TablesContent(ts) + MapOf(t.entries)
  {
    assert (ts + [t])[..|ts|] == ts;
  }

  lemma UpdateWorks(s: Store, p: Pair)
    requires Readable(s) && p.1 != NOT_FOUND
    ensures var t := s.(memTable := s.memTable[p.0 := p.1]);
            Readable(t) && Content(t) == Content(s)[p.0 := p.1]
  {
  }

  lemma InsertWorks(s: Store, p: Pair)
    requires Valid(s) && p.1 != NOT_FOUND
    ensures Valid(Insert(s, p)) && Content(Insert(s, p)) == Content(s)[p.0 := p.1]
  {
    UpdateWorks(s, p);
    FlushWorks(s.(memTable := s.memTable[p.0 := p.1]));
  }

  lemma {:induction false} ReadTablesIsLookup(ts: seq<SSTable>, key: string)
    requires AllOk(ts)
    ensures ReadTables(ts, key) == Lookup(TablesContent(ts), key)
    decreases |ts|
  {
    if ts != [] {
      ReadTablesIsLookup(ts[..|ts| - 1], key);
    }
  }

  lemma ReadIsLookup(s: Store, key: string)
    requires Valid(s)
    ensures Read(s, key) == Lookup(Content(s), key)
  {
    ReadTablesIsLookup(s.sstables, key);
  }

  /** The last value inserted under a key. */
  function Latest(log: seq<Pair>, key: string): string
  {
    if log == [] then NOT_FOUND
    else if log[|log| - 1].0 == key then log[|log| - 1].1
    else Latest(log[..|log| - 1], key)
  }

  /** The i-th entry is the last one for the key. */
  predicate LastFor(log: seq<Pair>, key: string, i: int)
  {
    0 <= i < |log| && log[i].0 == key && forall j :: i < j < |log| ==> log[j].0 != key
  }

  lemma {:induction false} LatestIs(log: seq<Pair>, key: string, i: nat)
    requires LastFor(log, key, i)
    ensures Latest(log, key) == log[i].1
    decreases |log|
  {
    if i < |log| - 1 {
      LatestIs(log[..|log| - 1], key, i);
    }
  }

  lemma {:induction false} NeverInserted(log: seq<Pair>, key: string)
    requires forall i :: 0 <= i < |log| ==> log[i].0 != key
    ensures Latest(log, key) == "NOT FOUND!"
    decreases |log|
  {
    if log != [] {
      NeverInserted(log[..|log| - 1], key);
    }
  }

  lemma {:induction false} ReplayHoldsLatest(log: seq<Pair>, key: string)
    requires forall i :: 0 <= i < |log| ==> log[i].1 != NOT_FOUND
    ensures Valid(Replay(log)) && Lookup(Content(Replay(log)), key) == Latest(log, key)
    decreases |log|
  {
    if log != [] {
      ReplayHoldsLatest(log[..|log| - 1], key);
      InsertWorks(Replay(log[..|log| - 1]), log[|log| - 1]);
    }
  }

  // ---------------------------------------------------------------- runs with crashes

  datatype Event = Serve(request: Pair) | ServeAndCrash(request: Pair) | Crash

  datatype State = State(file: string, store: Store)

  ghost function Served(s: State, p: Pair): State
  {
    State(s.file + Print(p), Insert(s.store, p))
  }

  ghost function Recovered(file: string): State
  {
    State(file, Replay(Parse(file)))
  }

  /** A crash may come between the append to the log and the update in memory. */
  ghost function After(s: State, e: Event): State
  {
    match e
    case Serve(p) => Served(s, p)
    case ServeAndCrash(p) => Recovered(s.file + Print(p))
    case Crash => Recovered(s.file)
  }

  /** The state after a run that starts without a log file. */
  ghost function Run(events: seq<Event>): State
  {
    if events == [] then Recovered("")
    else After(Run(events[..|events| - 1]), events[|events| - 1])
  }

  function Requests(events: seq<Event>): seq<Pair>
  {
    if events == [] then []
    else
      var e := events[|events| - 1];
      Requests(events[..|events| - 1]) + if e.Crash? then [] else [e.request]
  }

  /** The state of a store that served these requests and never crashed. */
  ghost function Uninterrupted(requests: seq<Pair>): State
  {
    State(PrintAll(requests), Replay(requests))
  }

  lemma RecoveryRebuilds(requests: seq<Pair>)
    requires AllWritable(requests)
    ensures Recovered(PrintAll(requests)) == Uninterrupted(requests)
  {
    RoundTrip(requests);
  }

  lemma EventKeeps(requests: seq<Pair>, e: Event)
    requires AllWritable(requests) && (e.Crash? || Writable(e.request))
    ensures After(Uninterrupted(requests), e) ==
            Uninterrupted(if e.Crash? then requests else requests + [e.request])
  {
    if e.Crash? {
      RecoveryRebuilds(requests);
    } else {
      PrintLast(requests, e.request);
      RecoveryRebuilds(requests + [e.request]);
      assert (requests + [e.request])[..|requests|] == requests;
    }
  }

  lemma AllWritableFront(requests: seq<Pair>, p: Pair)
    requires AllWritable(requests + [p])
    ensures AllWritable(requests) && Writable(p)
  {
    var more := requests + [p];
    assert more[|requests|] == p;
    forall i | 0 <= i < |requests| ensures Writable(requests[i]) {
      assert requests[i] == more[i];
    }
  }

  /** Whatever crashes happen, the log, the memory table and the sequence of sorted tables
      are those of the uninterrupted run. */
  lemma {:induction false} CrashesAreInvisible(events: seq<Event>)
    requires AllWritable(Requests(events))
    ensures Run(events) == Uninterrupted(Requests(events))
    decreases |events|
  {
    if events == [] {
      RecoveryRebuilds([]);
    } else {
      var front, e := events[..|events| - 1], events[|events| - 1];
      var requests := Requests(front);
      if e.Crash? {
        assert Requests(events) == requests;
      } else {
        AllWritableFront(requests, e.request);
      }
      CrashesAreInvisible(front);
      EventKeeps(requests, e);
    }
  }

  /** After any run of inserts and crashes a read sees the last value inserted. */
  lemma ReadSeesLatest(events: seq<Event>, key: string)
    requires AllWritable(Requests(events))
    ensures var requests, value := Requests(events), Read(Run(events).store, key);
            && value == Latest(requests, key)
            && (forall i :: LastFor(requests, key, i) ==> value == requests[i].1)
            && ((forall i :: 0 <= i < |requests| ==> requests[i].0 != key) ==> value == "NOT FOUND!")
  {
    var requests := Requests(events);
    if forall i :: 0 <= i < |requests| ==> requests[i].0 != key {
      NeverInserted(requests, key);
    }
    forall i | LastFor(requests, key, i) ensures Latest(requests, key) == requests[i].1 {
      LatestIs(requests, key, i);
    }
    forall i | 0 <= i < |requests| ensures requests[i].1 != NOT_FOUND {
      assert Writable(requests[i]) && IsSpace(NOT_FOUND[3]);
    }
    CrashesAreInvisible(events);
    ReplayHoldsLatest(requests, key);
    ReadIsLookup(Run(events).store, key);
  }

  // -------------------------------------------------------------------- the classes

  /** The log file; it outlives the object. */
  class WAL {
    var file: string

    constructor (contents: string)
      ensures file == contents
    {
      file := contents;
    }

    method Append(key: string, value: string)
      modifies this
      ensures file == old(file) + Print((key, value))
      ensures file == old(file) + key + " " + value + "\n"
    {
      file := file + Print((key, value));
    }

    method Recover() returns (logs: seq<Pair>)
      ensures logs == Parse(file)
    {
      logs := [];
      var rest := file;
      while true
        invariant logs + Parse(rest) == Parse(file)
        decreases |rest|
      {
        var read := ReadPair(rest);
        if read.None? { break; }
        logs := logs + [read.value.0];
        rest := read.value.1;
      }
    }
  }

  class KVstore {
    const wal: WAL
    var memTable: map<string, string>
    var sstables: seq<SSTable>

    ghost function View(): Store
      reads this
    {
      Store(memTable, sstables)
    }

    /** Every sorted table is sorted, whatever was inserted. */
    predicate Valid()
      reads this
    {
      forall i :: 0 <= i < |sstables| ==> Sorted(sstables[i].entries)
    }

    ghost function FullView(): State
      reads this, wal
    {
      State(wal.file, View())
    }

    /** Start-up: read the log and insert everything in it again. */
    constructor (contents: string)
      ensures Valid() && fresh(wal) && FullView() == Recovered(contents)
    {
      wal := new WAL(contents);
      memTable := map[];
      sstables := [];
      new;
      var logs := wal.Recover();
      InsertAgain(logs);
    }

    /** The loop of recover. */
    method InsertAgain(logs: seq<Pair>)
      requires Valid() && View() == Store(map[], [])
      modifies this
      ensures Valid() && View() == Replay(logs)
    {
      for i := 0 to |logs|
        invariant Valid() && View() == Replay(logs[..i])
      {
        ReplayOneMore(logs, i);
        Update(logs[i].0, logs[i].1);
      }
      assert logs[..|logs|] == logs;
    }

    method Flush()
      requires Valid()
      modifies this
      ensures Valid() && View() == Flushed(old(View()))
    {
      EntriesOf(memTable);
      var table := BuildSSTable(memTable);
      sstables := sstables + [table];
      memTable := map[];
    }

    /** What recovery and insertion share: update, and flush when full. */
    method Update(key: string, value: string)
      requires Valid()
      modifies this
      ensures Valid() && View() == Insert(old(View()), (key, value))
      ensures var all := old(memTable)[key := value];
              if |all| < 3 then memTable == all && sstables == old(sstables)
              else
                && memTable == map[] && old(sstables) <= sstables && |sstables| == |old(sstables)| + 1
                && MapOf(sstables[|sstables| - 1].entries) == all
    {
      EntriesOf(memTable[key := value]);
      memTable := memTable[key := value];
      if |memTable| >= FLUSH_THRESHOLD {
        Flush();
      }
    }

    method InsertKeyValue(key: string, value: string)
      requires Valid()
      modifies this, wal
      ensures Valid() && FullView() == Served(old(FullView()), (key, value))
    {
      wal.Append(key, value);
      Update(key, value);
    }

    method ReadKey(key: string) returns (value: string)
      requires Valid()
      ensures value == Read(View(), key)
    {
      if key in memTable {
        return memTable[key];
      }
      var n := |sstables|;
      assert sstables[..n] == sstables;
      while n > 0
        invariant 0 <= n <= |sstables|
        invariant ReadTables(sstables[..n], key) == ReadTables(sstables, key)
      {
        assert sstables[..n][..n - 1] == sstables[..n - 1];
        value := sstables[n - 1].SearchKey(key);
        if value != NOT_FOUND {
          return value;
        }
        n := n - 1;
      }
      return NOT_FOUND;
    }
  }
}
