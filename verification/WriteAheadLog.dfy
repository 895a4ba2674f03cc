module WriteAheadLog {
  // The write-ahead log kept as text: one numbered line per operation, parsed back at
  // start-up to rebuild the table.

  import opened Options
  import opened Tokens

  datatype Record = Record(lsn: int, put: bool, key: string, value: string)

  // -------------------------------------------------------------- printing a record

  function OpName(put: bool): string
  {
    if put then "PUT" else "DELETE"
  }

  function AfterKey(r: Record): string { " " + (r.value + "\n") }
  function AfterOp(r: Record): string { " " + (r.key + AfterKey(r)) }
  function AfterLsn(r: Record): string { " " + (OpName(r.put) + AfterOp(r)) }

  /** What append writes: number, operation, key and value. LSNs are never negative. */
  function Print(r: Record): string
    requires r.lsn >= 0
  {
    Decimal(r.lsn) + AfterLsn(r)
  }

  /** The LSNs of a log are 1, 2, 3, ... and none is too large for an int. */
  predicate Numbered(log: seq<Record>)
  {
    |log| < INT_MAX && forall i :: 0 <= i < |log| ==> log[i].lsn == i + 1
  }

  predicate Printable(log: seq<Record>)
  {
    forall i :: 0 <= i < |log| ==> 0 <= log[i].lsn <= INT_MAX
  }

  function Lines(log: seq<Record>): (r: seq<string>)
    requires Printable(log)
    ensures |r| == |log| && forall i :: 0 <= i < |log| ==> r[i] == Print(log[i])
  {
    seq(|log|, i requires 0 <= i < |log| => Print(log[i]))
  }

  function PrintAll(log: seq<Record>): string
    requires Printable(log)
  {
    Text(Lines(log))
  }

  // ------------------------------------------------------------------ reading it back

  /** One pass of the reading loop: the record, the rest of the input, and whether the
      stream is still good. */
  datatype Reading = Reading(record: Record, rest: string, good: bool)

  /** `stale` is the variable `value`, which keeps the value of the last PUT. A PUT whose
      value cannot be read is still recorded, with that value, and ends the loop. */
  function ReadRecord(s: string, stale: string): (r: Option<Reading>)
    ensures r.Some? ==> |r.value.rest| < |s|
  {
    match ReadInt(s)
    case None => None
    case Some((lsn, s1)) =>
      match ReadWord(s1)
      case None => None
      case Some((op, s2)) =>
        match ReadWord(s2)
        case None => None
        case Some((key, s3)) =>
          if op != "PUT" then Some(Reading(Record(lsn, false, key, stale), s3, true))
          else
            match ReadWord(s3)
            case None => Some(Reading(Record(lsn, true, key, stale), [], false))
            case Some((value, s4)) => Some(Reading(Record(lsn, true, key, value), s4, true))
  }

  /** The reading loop. */
  function Parse(s: string, stale: string): seq<Record>
    decreases |s|
  {
    match ReadRecord(s, stale)
    case None => []
    case Some(Reading(r, rest, good)) => [r] + if good then Parse(rest, r.value) else []
  }

  /** The records read so far and those still to come. */
  function Remaining(logs: seq<Record>, rest: string, value: string, good: bool): seq<Record>
  {
    logs + if good then Parse(rest, value) else []
  }

  lemma ReadOneMore(logs: seq<Record>, rest: string, value: string)
    ensures match ReadRecord(rest, value)
            case None => Remaining(logs, rest, value, true) == logs
            case Some(Reading(r, rest', good)) =>
              Remaining(logs, rest, value, true) == Remaining(logs + [r], rest', r.value, good)
  {
  }

  /** The parts of a record that replay uses. */
  predicate Same(a: Record, b: Record)
  {
    a.lsn == b.lsn && a.put == b.put && a.key == b.key && (a.put ==> a.value == b.value)
  }

  predicate Agree(parsed: seq<Record>, log: seq<Record>)
  {
    |parsed| == |log| && forall i :: 0 <= i < |log| ==> Same(parsed[i], log[i])
  }

  /** Operations as put and remove log them, with words for keys and PUT values. */
  predicate WellFormed(r: Record)
  {
    0 <= r.lsn <= INT_MAX && Token(r.key) && if r.put then Token(r.value) else r.value == ""
  }

  predicate AllWellFormed(log: seq<Record>)
  {
    forall i :: 0 <= i < |log| ==> WellFormed(log[i])
  }

  // ------------------------------------------------------------------- round trip

  lemma OpNameIsToken(put: bool)
    ensures Token(OpName(put))
  {
  }

  lemma ReadsLsn(r: Record, tail: string)
    requires 0 <= r.lsn <= INT_MAX
    ensures ReadInt(Print(r) + tail) == Some((r.lsn, AfterLsn(r) + tail))
  {
    var rest := AfterLsn(r) + tail;
    assert Print(r) + tail == "" + Decimal(r.lsn) + rest;
    assert IsSpace(rest[0]);
    ReadsDecimal("", r.lsn, rest);
  }

  lemma ReadsOp(r: Record, tail: string)
    ensures ReadWord(AfterLsn(r) + tail) == Some((OpName(r.put), AfterOp(r) + tail))
  {
    var rest := AfterOp(r) + tail;
    assert AfterLsn(r) + tail == " " + OpName(r.put) + rest;
    assert IsSpace(rest[0]);
    OpNameIsToken(r.put);
    ReadsWord(" ", OpName(r.put), rest);
  }

  lemma ReadsKey(r: Record, tail: string)
    requires Token(r.key)
    ensures ReadWord(AfterOp(r) + tail) == Some((r.key, AfterKey(r) + tail))
  {
    var rest := AfterKey(r) + tail;
    assert AfterOp(r) + tail == " " + r.key + rest;
    assert IsSpace(rest[0]);
    ReadsWord(" ", r.key, rest);
  }

  /** Reading the number, the operation and the key of a printed line. */
  lemma ReadsHead(r: Record, tail: string)
    requires 0 <= r.lsn <= INT_MAX && Token(r.key)
    ensures ReadInt(Print(r) + tail) == Some((r.lsn, AfterLsn(r) + tail))
    ensures ReadWord(AfterLsn(r) + tail) == Some((OpName(r.put), AfterOp(r) + tail))
    ensures ReadWord(AfterOp(r) + tail) == Some((r.key, AfterKey(r) + tail))
  {
    ReadsLsn(r, tail);
    ReadsOp(r, tail);
    ReadsKey(r, tail);
  }

  /** One well-formed line is read as one record; only white space is left of it. */
  lemma ReadsLine(r: Record, tail: string, stale: string)
    requires WellFormed(r)
    ensures var blank := if r.put then "\n" else " \n";
            ReadRecord(Print(r) + tail, stale) ==
            Some(Reading(r.(value := if r.put then r.value else stale), blank + tail, true))
  {
    ReadsHead(r, tail);
    if r.put {
      assert AfterKey(r) + tail == " " + r.value + ("\n" + tail);
      ReadsWord(" ", r.value, "\n" + tail);
    } else {
      assert AfterKey(r) == " \n";
    }
  }

  /** Any word but PUT is read as a removal. */
  lemma OtherWordsRemove(lsn: nat, op: string, key: string, tail: string, stale: string)
    requires lsn <= INT_MAX && Token(op) && op != "PUT" && Token(key)
    ensures ReadRecord(Decimal(lsn) + (" " + (op + (" " + (key + ("\n" + tail))))), stale) ==
            Some(Reading(Record(lsn, false, key, stale), "\n" + tail, true))
  {
    var s3 := "\n" + tail;
    var s2 := " " + (key + s3);
    var s1 := " " + (op + s2);
    ReadsPrinted(lsn, s1);
    ReadsSpaced(op, s2);
    ReadsSpaced(key, s3);
    ReadsRemoval(Decimal(lsn) + s1, lsn, s1, op, s2, key, s3, stale);
  }

  lemma ReadsPrinted(lsn: nat, rest: string)
    requires lsn <= INT_MAX && AtBreak(rest)
    ensures ReadInt(Decimal(lsn) + rest) == Some((lsn, rest))
  {
    ReadsDecimal("", lsn, rest);
    assert "" + Decimal(lsn) + rest == Decimal(lsn) + rest;
  }

  lemma ReadsSpaced(w: string, rest: string)
    requires Token(w) && AtBreak(rest)
    ensures ReadWord(" " + (w + rest)) == Some((w, rest))
  {
    ReadsWord(" ", w, rest);
    assert " " + w + rest == " " + (w + rest);
  }

  lemma ReadsRemoval(s: string, lsn: int, s1: string, op: string, s2: string, key: string, s3: string, stale: string)
    requires ReadInt(s) == Some((lsn, s1)) && ReadWord(s1) == Some((op, s2)) && ReadWord(s2) == Some((key, s3))
    requires op != "PUT"
    ensures ReadRecord(s, stale) == Some(Reading(Record(lsn, false, key, stale), s3, true))
  {
  }

  lemma ParsesLine(r: Record, tail: string, stale: string)
    requires WellFormed(r)
    ensures var r' := r.(value := if r.put then r.value else stale);
            Parse(Print(r) + tail, stale) == [r'] + Parse(tail, r'.value)
  {
    ReadsLine(r, tail, stale);
    ParseSkipsBlank(if r.put then "\n" else " \n", tail, if r.put then r.value else stale);
  }

  lemma ParseSkipsBlank(blank: string, s: string, stale: string)
    requires Blank(blank)
    ensures Parse(blank + s, stale) == Parse(s, stale)
  {
    ReadIntSkipsBlank(blank, s);
    assert ReadRecord(blank + s, stale) == ReadRecord(s, stale);
  }

  lemma PrintFront(log: seq<Record>)
    requires Printable(log) && log != []
    ensures PrintAll(log) == Print(log[0]) + PrintAll(log[1..])
  {
    TextFront(Lines(log));
    assert Lines(log)[1..] == Lines(log[1..]);
  }

  lemma PrintLast(log: seq<Record>, r: Record)
    requires Printable(log) && 0 <= r.lsn <= INT_MAX
    ensures Printable(log + [r]) && PrintAll(log + [r]) == PrintAll(log) + Print(r)
  {
    assert Lines(log + [r]) == Lines(log) + [Print(r)];
  }

  lemma NothingParsesToNothing(stale: string)
    ensures Parse("", stale) == []
  {
    BlankHasNoInt("");
  }

  lemma AgreeFromFront(r: Record, tail: seq<Record>, log: seq<Record>)
    requires log != [] && Same(r, log[0]) && Agree(tail, log[1..])
    ensures Agree([r] + tail, log)
  {
    var parsed := [r] + tail;
    forall i | 0 <= i < |log| ensures Same(parsed[i], log[i]) {
      if i > 0 {
        assert parsed[i] == tail[i - 1] && log[i] == log[1..][i - 1];
      }
    }
  }

  /** Every well-formed log is read back, whatever `value` held before. */
  lemma {:induction false} RoundTrip(log: seq<Record>, stale: string)
    requires AllWellFormed(log)
    ensures Printable(log) && Agree(Parse(PrintAll(log), stale), log)
    decreases |log|
  {
    if log == [] {
      NothingParsesToNothing(stale);
    } else {
      var r, rest := log[0], log[1..];
      var stale' := if r.put then r.value else stale;
      PrintFront(log);
      ParsesLine(r, PrintAll(rest), stale);
      RoundTrip(rest, stale');
      AgreeFromFront(r.(value := stale'), Parse(PrintAll(rest), stale'), log);
    }
  }

  // --------------------------------------- exactly which logs survive the round trip

  predicate NoPutBefore(log: seq<Record>, n: int)
  {
    forall i :: 0 <= i < n && i < |log| ==> !log[i].put
  }

  /** The one log that survives although a PUT value is no word: its last record is its
      only PUT and has an empty value, which the unread variable supplies. */
  predicate LuckyLast(log: seq<Record>)
  {
    && log != [] && log[|log| - 1].put && log[|log| - 1].value == "" && Token(log[|log| - 1].key)
    && NoPutBefore(log, |log| - 1) && forall i :: 0 <= i < |log| - 1 ==> WellFormed(log[i])
  }

  /** What the parser can produce: keys are words, and so are PUT values, except that
      the last record may repeat the value held before the first PUT. */
  ghost predicate Produced(rs: seq<Record>, stale: string)
  {
    && (forall i :: 0 <= i < |rs| ==> Token(rs[i].key))
    && (forall i :: 0 <= i < |rs| && rs[i].put ==> Token(rs[i].value) || Unread(rs, i, stale))
  }

  predicate Unread(rs: seq<Record>, i: int, stale: string)
    requires 0 <= i < |rs|
  {
    i == |rs| - 1 && NoPutBefore(rs, i) && rs[i].value == stale
  }

  lemma ReadRecordProduces(s: string, stale: string)
    requires ReadRecord(s, stale).Some?
    ensures var Reading(r, rest, good) := ReadRecord(s, stale).value;
            && Token(r.key)
            && (r.put && good ==> Token(r.value))
            && (!r.put ==> good)
            && (!r.put || !good ==> r.value == stale)
  {
    var s1 := ReadInt(s).value.1;
    var s2 := ReadWord(s1).value.1;
    ReadIsToken(s2);
    var s3 := ReadWord(s2).value.1;
    if ReadWord(s3).Some? {
      ReadIsToken(s3);
    }
  }

  /** Records that follow one that was read in full. */
  lemma ProducedAfter(r: Record, tail: seq<Record>, stale: string)
    requires Token(r.key) && Produced(tail, r.value) && (if r.put then Token(r.value) else r.value == stale)
    ensures Produced([r] + tail, stale)
  {
    var rs := [r] + tail;
    forall i | 0 <= i < |rs| && rs[i].put ensures Token(rs[i].value) || Unread(rs, i, stale) {
      if i > 0 && !Token(rs[i].value) {
        var k := i - 1;
        assert rs[i] == tail[k] && Unread(tail, k, r.value);
        forall j | 0 <= j < i ensures !rs[j].put {
          assert j > 0 ==> rs[j] == tail[j - 1];
        }
      }
    }
  }

  lemma {:induction false} ParseProduces(s: string, stale: string)
    ensures Produced(Parse(s, stale), stale)
    decreases |s|
  {
    var read := ReadRecord(s, stale);
    if read.Some? {
      var Reading(r, rest, good) := read.value;
      ReadRecordProduces(s, stale);
      if good {
        ParseProduces(rest, r.value);
        ProducedAfter(r, Parse(rest, r.value), stale);
      }
    }
  }

  /** A log of put and remove calls is read back if and only if its keys and PUT values
      are words, or it is the lucky case above. */
  lemma RoundTripIff(log: seq<Record>)
    requires Printable(log) && forall i :: 0 <= i < |log| && !log[i].put ==> log[i].value == ""
    ensures Agree(Parse(PrintAll(log), ""), log) <==> AllWellFormed(log) || LuckyLast(log)
  {
    if AllWellFormed(log) {
      RoundTrip(log, "");
    } else if LuckyLast(log) {
      LuckyLogRoundTrips(log);
    } else {
      ParseProduces(PrintAll(log), "");
      if Agree(Parse(PrintAll(log), ""), log) {
        OnlyLuckyLogsSurvive(Parse(PrintAll(log), ""), log);
      }
    }
  }

  lemma OnlyLuckyLogsSurvive(parsed: seq<Record>, log: seq<Record>)
    requires Printable(log) && forall i :: 0 <= i < |log| && !log[i].put ==> log[i].value == ""
    requires Agree(parsed, log) && Produced(parsed, "") && !AllWellFormed(log)
    ensures LuckyLast(log)
  {
    var i :| 0 <= i < |log| && !WellFormed(log[i]);
    assert Same(parsed[i], log[i]) && Token(parsed[i].key);
    assert log[i].put && !Token(log[i].value) && Unread(parsed, i, "");
    forall j | 0 <= j < i ensures !log[j].put && WellFormed(log[j]) {
      assert Same(parsed[j], log[j]) && !parsed[j].put && Token(parsed[j].key);
    }
  }

  /** A final PUT without a value takes the value held before. */
  lemma ReadsUnfinished(r: Record, stale: string)
    requires 0 <= r.lsn <= INT_MAX && r.put && Token(r.key) && r.value == ""
    ensures Parse(Print(r), stale) == [r.(value := stale)]
  {
    ReadsHead(r, "");
    assert Print(r) + "" == Print(r) && AfterLsn(r) + "" == AfterLsn(r);
    assert AfterOp(r) + "" == AfterOp(r) && AfterKey(r) + "" == " \n";
    BlankHasNoWord(" \n");
    assert ReadRecord(Print(r), stale) == Some(Reading(r.(value := stale), [], false));
  }

  lemma LuckyTail(log: seq<Record>)
    requires LuckyLast(log) && |log| > 1
    ensures LuckyLast(log[1..]) && WellFormed(log[0]) && !log[0].put
  {
    var rest := log[1..];
    forall i | 0 <= i < |rest| - 1 ensures !rest[i].put && WellFormed(rest[i]) {
      assert rest[i] == log[i + 1];
    }
  }

  lemma {:induction false} LuckyLogRoundTrips(log: seq<Record>)
    requires Printable(log) && LuckyLast(log)
    ensures Agree(Parse(PrintAll(log), ""), log)
    decreases |log|
  {
    var r, rest := log[0], log[1..];
    PrintFront(log);
    if |log| == 1 {
      assert Print(r) + PrintAll(rest) == Print(r);
      ReadsUnfinished(r, "");
    } else {
      LuckyTail(log);
      ParsesLine(r, PrintAll(rest), "");
      LuckyLogRoundTrips(rest);
      AgreeFromFront(r.(value := ""), Parse(PrintAll(rest), ""), log);
    }
  }

  /** The value of the last PUT of a log. */
  function LastPut(log: seq<Record>, stale: string): string
    decreases |log|
  {
    if log == [] then stale else LastPut(log[1..], if log[0].put then log[0].value else stale)
  }

  /** What is read instead of an empty value at the end of a log: the value of the PUT
      before it. */
  lemma {:induction false} EmptyPutReadsStale(log: seq<Record>, r: Record, stale: string)
    requires AllWellFormed(log) && Printable(log) && Printable(log + [r])
    requires r.put && Token(r.key) && r.value == ""
    ensures Parse(PrintAll(log + [r]), stale) ==
            Parse(PrintAll(log), stale) + [r.(value := LastPut(log, stale))]
    decreases |log|
  {
    if log == [] {
      assert log + [r] == [r] && (log + [r])[0] == r;
      EmptyPutAlone(r, stale);
    } else {
      var value := if log[0].put then log[0].value else stale;
      var all := log + [r];
      assert all[1..] == log[1..] + [r] && all[0] == log[0];
      PrintableRest(log);
      PrintableRest(all);
      EmptyPutReadsStale(log[1..], r, value);
      EmptyPutStep(log, all, stale, r.(value := LastPut(log, stale)));
    }
  }

  lemma EmptyPutStep(log: seq<Record>, all: seq<Record>, stale: string, x: Record)
    requires Printable(log) && Printable(all) && log != [] && all != [] && all[0] == log[0] && WellFormed(log[0])
    requires Printable(log[1..]) && Printable(all[1..])
    requires var value := if log[0].put then log[0].value else stale;
             Parse(PrintAll(all[1..]), value) == Parse(PrintAll(log[1..]), value) + [x]
    ensures Parse(PrintAll(all), stale) == Parse(PrintAll(log), stale) + [x]
  {
    ParsesFront(log, stale);
    ParsesFront(all, stale);
    var first := log[0].(value := if log[0].put then log[0].value else stale);
    Associative([first], Parse(PrintAll(log[1..]), first.value), [x]);
  }

  lemma Associative(a: seq<Record>, b: seq<Record>, c: seq<Record>)
    ensures a + (b + c) == a + b + c
  {
  }

  lemma PrintableRest(log: seq<Record>)
    requires Printable(log) && log != []
    ensures Printable(log[1..])
  {
  }

  lemma EmptyPutAlone(r: Record, stale: string)
    requires 0 <= r.lsn <= INT_MAX && r.put && Token(r.key) && r.value == ""
    ensures Parse(PrintAll([r]), stale) == [r.(value := stale)] && Parse(PrintAll([]), stale) == []
  {
    PrintFront([r]);
    assert [r][1..] == [] && PrintAll([]) == "";
    assert Print(r) + "" == Print(r);
    ReadsUnfinished(r, stale);
    NothingParsesToNothing(stale);
  }

  lemma ParsesFront(log: seq<Record>, stale: string)
    requires Printable(log) && log != [] && WellFormed(log[0])
    ensures var first := log[0].(value := if log[0].put then log[0].value else stale);
            Parse(PrintAll(log), stale) == [first] + Parse(PrintAll(log[1..]), first.value)
  {
    PrintFront(log);
    ParsesLine(log[0], PrintAll(log[1..]), stale);
  }

  // ------------------------------------------------------------- numbering and replay

  /** The number that follows all numbers read, and is at least `next`. */
  function NextLsn(next: int, rs: seq<Record>): (n: int)
    ensures n >= next && forall i :: 0 <= i < |rs| ==> n > rs[i].lsn
    ensures n == next || exists i :: 0 <= i < |rs| && n == rs[i].lsn + 1
  {
    if rs == [] then next
    else
      var n, r := NextLsn(next, rs[..|rs| - 1]), rs[|rs| - 1];
      if n < r.lsn + 1 then r.lsn + 1 else n
  }

  function Apply(table: map<string, string>, r: Record): map<string, string>
  {
    if r.put then table[r.key := r.value] else table - {r.key}
  }

  function Replay(rs: seq<Record>): map<string, string>
  {
    if rs == [] then map[] else Apply(Replay(rs[..|rs| - 1]), rs[|rs| - 1])
  }

  lemma {:induction false} SameReplay(parsed: seq<Record>, log: seq<Record>)
    requires Agree(parsed, log)
    ensures Replay(parsed) == Replay(log)
    ensures forall next :: NextLsn(next, parsed) == NextLsn(next, log)
    decreases |log|
  {
    if log != [] {
      var n := |log| - 1;
      assert Same(parsed[n], log[n]);
      SameReplay(parsed[..n], log[..n]);
    }
  }

  lemma {:induction false} NumberedContinues(log: seq<Record>)
    requires Numbered(log)
    ensures NextLsn(1, log) == |log| + 1
    decreases |log|
  {
    if log != [] {
      NumberedContinues(log[..|log| - 1]);
    }
  }

  // ---------------------------------------------------------------- runs with crashes

  /** A request: put a value under a key, or remove the key. */
  datatype Request = Put(key: string, value: string) | Remove(key: string)

  /** A crash may come between appending to the log and updating the table, or between
      requests; the store is then built again from the file. */
  datatype Event = Serve(request: Request) | ServeAndCrash(request: Request) | Crash

  datatype State = State(file: string, nextLsn: int, table: map<string, string>)

  predicate Writable(q: Request)
  {
    Token(q.key) && (q.Put? ==> Token(q.value))
  }

  function ToRecord(lsn: int, q: Request): Record
  {
    Record(lsn, q.Put?, q.key, if q.Put? then q.value else "")
  }

  /** Log, then update the table. */
  function Appended(s: State, q: Request): State
    requires s.nextLsn >= 0
  {
    State(s.file + Print(ToRecord(s.nextLsn, q)), s.nextLsn + 1, s.table)
  }

  function Served(s: State, q: Request): State
    requires s.nextLsn >= 0
  {
    Appended(s, q).(table := Apply(s.table, ToRecord(s.nextLsn, q)))
  }

  /** A store built from a file. */
  function Recovered(file: string): State
  {
    var rs := Parse(file, "");
    State(file, NextLsn(1, rs), Replay(rs))
  }

  function After(s: State, e: Event): (t: State)
    requires s.nextLsn >= 1
    ensures t.nextLsn >= 1
  {
    match e
    case Serve(q) => Served(s, q)
    case ServeAndCrash(q) => Recovered(Appended(s, q).file)
    case Crash => Recovered(s.file)
  }

  /** The requests of a run, whatever crashes came between them. */
  function Requests(events: seq<Event>): seq<Request>
  {
    if events == [] then []
    else
      var e := events[|events| - 1];
      Requests(events[..|events| - 1]) + if e.Crash? then [] else [e.request]
  }

  /** The log of an uninterrupted run. */
  function LogOf(requests: seq<Request>): (log: seq<Record>)
    ensures |log| == |requests|
    ensures forall i :: 0 <= i < |log| ==> log[i] == ToRecord(i + 1, requests[i])
  {
    seq(|requests|, i requires 0 <= i < |requests| => ToRecord(i + 1, requests[i]))
  }

  predicate AllWritable(requests: seq<Request>)
  {
    |requests| < INT_MAX && forall i :: 0 <= i < |requests| ==> Writable(requests[i])
  }

  /** The state of a store that served these requests and never crashed. */
  function Uninterrupted(requests: seq<Request>): State
    requires AllWritable(requests)
  {
    var log := LogOf(requests);
    State(PrintAll(log), |log| + 1, Replay(log))
  }

  /** The state after a run that starts without a log file. */
  function Run(events: seq<Event>): (s: State)
    ensures s.nextLsn >= 1
  {
    if events == [] then Recovered("")
    else After(Run(events[..|events| - 1]), events[|events| - 1])
  }

  lemma ServingExtendsTheLog(requests: seq<Request>, q: Request)
    requires AllWritable(requests + [q])
    ensures AllWritable(requests) && Served(Uninterrupted(requests), q) == Uninterrupted(requests + [q])
    ensures Appended(Uninterrupted(requests), q).file == Uninterrupted(requests + [q]).file
  {
    AllWritableFront(requests, q);
    LogGrows(requests, q);
    PrintLast(LogOf(requests), ToRecord(|requests| + 1, q));
    ReplayGrows(LogOf(requests), ToRecord(|requests| + 1, q));
  }

  lemma LogGrows(requests: seq<Request>, q: Request)
    ensures LogOf(requests + [q]) == LogOf(requests) + [ToRecord(|requests| + 1, q)]
  {
  }

  lemma ReplayGrows(log: seq<Record>, r: Record)
    ensures Replay(log + [r]) == Apply(Replay(log), r)
  {
    assert (log + [r])[..|log|] == log;
  }

  /** Reading the file of an uninterrupted run gives its state: the same table, and the
      next number in sequence. */
  lemma RecoveryRebuilds(requests: seq<Request>)
    requires AllWritable(requests)
    ensures Recovered(PrintAll(LogOf(requests))) == Uninterrupted(requests)
  {
    var log := LogOf(requests);
    assert AllWellFormed(log) by {
      forall i | 0 <= i < |log| ensures WellFormed(log[i]) {
        assert Writable(requests[i]);
      }
    }
    RoundTrip(log, "");
    SameReplay(Parse(PrintAll(log), ""), log);
    NumberedContinues(log);
  }

  lemma EventKeeps(requests: seq<Request>, e: Event)
    requires AllWritable(requests) && (e.Crash? || AllWritable(requests + [e.request]))
    ensures After(Uninterrupted(requests), e) ==
            Uninterrupted(if e.Crash? then requests else requests + [e.request])
  {
    if e.Crash? {
      RecoveryRebuilds(requests);
    } else {
      ServingExtendsTheLog(requests, e.request);
      RecoveryRebuilds(requests + [e.request]);
    }
  }

  /** No run can be told from the uninterrupted one: crashes lose nothing, not even the
      request that was only logged, and the log stays numbered 1, 2, 3, ... */
  lemma {:induction false} CrashesAreInvisible(events: seq<Event>)
    requires AllWritable(Requests(events))
    ensures Run(events) == Uninterrupted(Requests(events))
    decreases |events|
  {
    if events == [] {
      NothingToRecover();
    } else {
      var front, e := events[..|events| - 1], events[|events| - 1];
      var requests := Requests(front);
      assert Requests(events) == if e.Crash? then requests else requests + [e.request];
      if !e.Crash? {
        AllWritableFront(requests, e.request);
      }
      CrashesAreInvisible(front);
      EventKeeps(requests, e);
    }
  }

  lemma NothingToRecover()
    ensures Recovered("") == Uninterrupted([])
  {
    RecoveryRebuilds([]);
    assert PrintAll(LogOf([])) == "";
  }

  lemma AllWritableFront(requests: seq<Request>, q: Request)
    requires AllWritable(requests + [q])
    ensures AllWritable(requests)
  {
    forall i | 0 <= i < |requests| ensures Writable(requests[i]) {
      assert requests[i] == (requests + [q])[i];
    }
  }

  /** The last request for a key decides what it holds. */
  function Latest(requests: seq<Request>, key: string): Option<string>
  {
    if requests == [] then None
    else
      var q := requests[|requests| - 1];
      if q.key != key then Latest(requests[..|requests| - 1], key)
      else if q.Put? then Some(q.value)
      else None
  }

  /** The i-th request is the last one for the key. */
  predicate LastFor(requests: seq<Request>, key: string, i: int)
  {
    0 <= i < |requests| && requests[i].key == key && forall j :: i < j < |requests| ==> requests[j].key != key
  }

  lemma {:induction false} LatestIs(requests: seq<Request>, key: string, i: nat)
    requires LastFor(requests, key, i)
    ensures Latest(requests, key) == if requests[i].Put? then Some(requests[i].value) else None
    decreases |requests|
  {
    if i < |requests| - 1 {
      LatestIs(requests[..|requests| - 1], key, i);
    }
  }

  lemma {:induction false} NeverRequested(requests: seq<Request>, key: string)
    requires forall i :: 0 <= i < |requests| ==> requests[i].key != key
    ensures Latest(requests, key) == None
    decreases |requests|
  {
    if requests != [] {
      NeverRequested(requests[..|requests| - 1], key);
    }
  }

  lemma {:induction false} ReplayHoldsLatest(requests: seq<Request>, key: string)
    ensures var table := Replay(LogOf(requests));
            Latest(requests, key) == if key in table then Some(table[key]) else None
    decreases |requests|
  {
    if requests != [] {
      var n := |requests| - 1;
      ReplayHoldsLatest(requests[..n], key);
      assert LogOf(requests)[..n] == LogOf(requests[..n]);
    }
  }

  function Lookup(table: map<string, string>, key: string): string
  {
    if key in table then table[key] else "NOT_FOUND!"
  }

  /** After any run of requests and crashes, get answers with the last value put under
      the key, unless the key was removed since. */
  lemma GetSeesLatest(events: seq<Event>, key: string)
    requires AllWritable(Requests(events))
    ensures Lookup(Run(events).table, key) ==
            match Latest(Requests(events), key) case Some(v) => v case None => "NOT_FOUND!"
    ensures var requests, value := Requests(events), Lookup(Run(events).table, key);
            && (forall i :: LastFor(requests, key, i) ==>
                  value == if requests[i].Put? then requests[i].value else "NOT_FOUND!")
            && ((forall i :: 0 <= i < |requests| ==> requests[i].key != key) ==> value == "NOT_FOUND!")
  {
    var requests := Requests(events);
    CrashesAreInvisible(events);
    ReplayHoldsLatest(requests, key);
    if forall i :: 0 <= i < |requests| ==> requests[i].key != key {
      NeverRequested(requests, key);
    }
    forall i | LastFor(requests, key, i)
      ensures Latest(requests, key) == if requests[i].Put? then Some(requests[i].value) else None
    {
      LatestIs(requests, key, i);
    }
  }

  /** A run after which get answers with a value never put under the key: "x" is put under
      "a" and the empty value under "b"; after a crash "b" holds "x". */
  lemma EmptyValueComesBackWrong(events: seq<Event>)
    requires events == [Serve(Put("a", "x")), Serve(Put("b", "")), Crash]
    ensures Lookup(Run(events[..2]).table, "b") == "" && Lookup(Run(events).table, "b") == "x"
  {
    var r1, r2 := Record(1, true, "a", "x"), Record(2, true, "b", "");
    ServedTwice(events, r1, r2);
    assert events[..|events| - 1] == events[..2];
    EmptyPutReplays([r1], r2);
    assert LastPut([r1], "") == "x" by {
      assert [r1][1..] == [];
    }
  }

  /** A store recovered from a log that ends with an empty PUT holds the value of the PUT
      before it under that key. */
  lemma EmptyPutReplays(log: seq<Record>, r: Record)
    requires AllWellFormed(log) && Printable(log) && Printable(log + [r])
    requires r.put && Token(r.key) && r.value == ""
    ensures Lookup(Recovered(PrintAll(log + [r])).table, r.key) == LastPut(log, "")
  {
    EmptyPutReadsStale(log, r, "");
    LastRecordWins(Parse(PrintAll(log), ""), r.(value := LastPut(log, "")));
  }

  lemma LastRecordWins(rs: seq<Record>, r: Record)
    requires r.put
    ensures Lookup(Replay(rs + [r]), r.key) == r.value
  {
    assert (rs + [r])[..|rs|] == rs;
  }

  lemma ServedTwice(events: seq<Event>, r1: Record, r2: Record)
    requires events == [Serve(Put("a", "x")), Serve(Put("b", "")), Crash]
    requires r1 == Record(1, true, "a", "x") && r2 == Record(2, true, "b", "")
    ensures Printable([r1] + [r2]) && Run(events[..2]).file == PrintAll([r1] + [r2])
    ensures Lookup(Run(events[..2]).table, "b") == ""
  {
    StartsEmpty();
    RunOfTwo(events);
    var q1, q2 := Put("a", "x"), Put("b", "");
    ServedLogs(Run([]), [], q1);
    assert [] + [r1] == [r1];
    ServedLogs(Served(Run([]), q1), [r1], q2);
  }

  lemma StartsEmpty()
    ensures Run([]) == State("", 1, map[]) && PrintAll([]) == ""
  {
    NothingToRecover();
    assert LogOf([]) == [];
  }

  lemma RunOfTwo(events: seq<Event>)
    requires |events| >= 2 && events[0].Serve? && events[1].Serve?
    ensures Run(events[..2]) == Served(Served(Run([]), events[0].request), events[1].request)
  {
    assert events[..1][..0] == [] && events[..1][0] == events[0];
    assert events[..2][..1] == events[..1] && events[..2][1] == events[1];
  }

  lemma ServedLogs(s: State, log: seq<Record>, q: Request)
    requires Printable(log) && s.file == PrintAll(log) && 0 <= s.nextLsn <= INT_MAX
    ensures var all := log + [ToRecord(s.nextLsn, q)];
            Printable(all) && Served(s, q).file == PrintAll(all)
  {
    PrintLast(log, ToRecord(s.nextLsn, q));
  }

  // ------------------------------------------------------------------- the two classes

  /** The log file with the next number. The file outlives the object. */
  class WAL {
    var file: string
    var nextLsn: int

    constructor (contents: string)
      ensures file == contents && nextLsn == 1
    {
      file := contents;
      nextLsn := 1;
    }

    method Append(put: bool, key: string, value: string)
      requires nextLsn >= 0
      modifies this
      ensures file == old(file) + Print(Record(old(nextLsn), put, key, value))
      ensures file == old(file) + (Decimal(old(nextLsn)) + (" " + ((if put then "PUT" else "DELETE") + (" " + (key + (" " + (value + "\n")))))))
      ensures nextLsn == old(nextLsn) + 1
    {
      file := file + Print(Record(nextLsn, put, key, value));
      nextLsn := nextLsn + 1;
    }

    method Recover() returns (logs: seq<Record>)
      modifies this`nextLsn
      ensures logs == Parse(file, "") && nextLsn == NextLsn(old(nextLsn), logs)
    {
      logs := [];
      var rest, value, good := file, "", true;
      while good
        invariant Remaining(logs, rest, value, good) == Parse(file, "")
        invariant nextLsn == NextLsn(old(nextLsn), logs)
        decreases |rest| + if good then 1 else 0
      {
        var read := ReadRecord(rest, value);
        ReadOneMore(logs, rest, value);
        if read.None? { break; }
        var rec := read.value.record;
        rest, value, good := read.value.rest, rec.value, read.value.good;
        assert (logs + [rec])[..|logs|] == logs;
        logs := logs + [rec];
        if nextLsn < rec.lsn + 1 {
          nextLsn := rec.lsn + 1;
        }
      }
    }
  }

  class KVstore {
    const wal: WAL
    var memtable: map<string, string>

    function View(): State
      reads this, wal
    {
      State(wal.file, wal.nextLsn, memtable)
    }

    /** The loop of replay. */
    static method Replayed(records: seq<Record>) returns (table: map<string, string>)
      ensures table == Replay(records)
    {
      table := map[];
      for i := 0 to |records|
        invariant table == Replay(records[..i])
      {
        assert records[..i + 1][..i] == records[..i];
        if records[i].put {
          table := table[records[i].key := records[i].value];
        } else {
          table := table - {records[i].key};
        }
      }
      assert records[..|records|] == records;
    }

    /** Start-up: read the file and replay it. */
    constructor (contents: string)
      ensures fresh(wal) && View() == Recovered(contents)
    {
      var log := new WAL(contents);
      var records := log.Recover();
      var table := Replayed(records);
      wal := log;
      memtable := table;
    }

    method Get(key: string) returns (value: string)
      ensures value == Lookup(View().table, key)
    {
      if key !in memtable {
        return "NOT_FOUND!";
      }
      value := memtable[key];
    }

    method Put(key: string, value: string)
      requires wal.nextLsn >= 0
      modifies this, wal
      ensures View() == Served(old(View()), Request.Put(key, value))
    {
      wal.Append(true, key, value);
      memtable := memtable[key := value];
    }

    method Remove(key: string)
      requires wal.nextLsn >= 0
      modifies this, wal
      ensures View() == Served(old(View()), Request.Remove(key))
    {
      wal.Append(false, key, "");
      memtable := memtable - {key};
    }
  }
}
