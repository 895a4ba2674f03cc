module ReadWriteLock {
  // The writer-preference read/write lock. The counters and their critical sections
  // are a class; the threads that use it are a state machine in which sleeping on a
  // condition variable, being signalled, and waking for no reason are explicit.
  //
  // Clients are well behaved: a lock is released only by a thread that holds it.

  import opened Sets

  datatype Counters = Counters(activeReaders: int, waitingWriters: int, anyActiveWriter: bool)

  predicate ReadAllowed(c: Counters)
  {
    !c.anyActiveWriter && c.waitingWriters == 0
  }

  predicate WriteAllowed(c: Counters)
  {
    c.activeReaders == 0 && !c.anyActiveWriter
  }

  function ReaderIn(c: Counters): Counters { c.(activeReaders := c.activeReaders + 1) }
  function ReaderOut(c: Counters): Counters { c.(activeReaders := c.activeReaders - 1) }
  function WriterWaits(c: Counters): Counters { c.(waitingWriters := c.waitingWriters + 1) }
  function WriterIn(c: Counters): Counters { c.(waitingWriters := c.waitingWriters - 1, anyActiveWriter := true) }
  function WriterOut(c: Counters): Counters { c.(anyActiveWriter := false) }

  // ---------------------------------------------------------- the critical sections

  class Lock {
    var activeReaders: int
    var waitingWriters: int
    var anyActiveWriter: bool

    function View(): Counters
      reads this
    {
      Counters(activeReaders, waitingWriters, anyActiveWriter)
    }

    constructor ()
      ensures View() == Counters(0, 0, false)
    {
      activeReaders, waitingWriters, anyActiveWriter := 0, 0, false;
    }

    /** acquire_read_lock up to the end of one evaluation of its wait condition. */
    method TryRead() returns (admitted: bool)
      modifies this
      ensures admitted <==> ReadAllowed(old(View()))
      ensures admitted <==> !old(anyActiveWriter) && old(waitingWriters) == 0
      ensures View() == if admitted then ReaderIn(old(View())) else old(View())
    {
      admitted := anyActiveWriter == false && waitingWriters == 0;
      if admitted {
        activeReaders := activeReaders + 1;
      }
    }

    method ReleaseRead() returns (notifyWriter: bool)
      modifies this
      ensures View() == ReaderOut(old(View())) && (notifyWriter <==> View().activeReaders == 0)
    {
      activeReaders := activeReaders - 1;
      notifyWriter := activeReaders == 0;
    }

    method AnnounceWriter()
      modifies this
      ensures View() == WriterWaits(old(View()))
    {
      waitingWriters := waitingWriters + 1;
    }

    /** One evaluation of the wait condition of acquire_write_lock. */
    method TryWrite() returns (admitted: bool)
      modifies this
      ensures admitted <==> WriteAllowed(old(View()))
      ensures admitted <==> old(activeReaders) == 0 && !old(anyActiveWriter)
      ensures View() == if admitted then WriterIn(old(View())) else old(View())
    {
      admitted := activeReaders == 0 && anyActiveWriter == false;
      if admitted {
        waitingWriters := waitingWriters - 1;
        anyActiveWriter := true;
      }
    }

    /** Afterwards one writer is to be notified, or else all readers. */
    method ReleaseWrite() returns (notifyWriter: bool)
      modifies this
      ensures View() == WriterOut(old(View())) && (notifyWriter <==> View().waitingWriters > 0)
    {
      anyActiveWriter := false;
      notifyWriter := waitingWriters > 0;
    }
  }

  // ------------------------------------------------------------------- the threads

  datatype Thread =
    | Idle
    | ReaderAsleep | ReaderSignalled | Reading
    | WriterAsleep | WriterSignalled | Writing

  datatype State = State(c: Counters, threads: map<nat, Thread>)

  /** In a release, `wake` is the sleeping writer that notify_one picks. */
  datatype Action =
    | AcquireRead | RecheckRead | ReleaseRead(wake: nat)
    | AcquireWrite | RecheckWrite | ReleaseWrite(wake: nat)
    | SpuriousWake

  predicate Enabled(s: State, t: nat, a: Action)
  {
    t in s.threads &&
    match a
    case AcquireRead => s.threads[t] == Idle
    case RecheckRead => s.threads[t] == ReaderSignalled
    case ReleaseRead(w) => s.threads[t] == Reading && Picked(s, w)
    case AcquireWrite => s.threads[t] == Idle
    case RecheckWrite => s.threads[t] == WriterSignalled
    case ReleaseWrite(w) => s.threads[t] == Writing && Picked(s, w)
    case SpuriousWake => s.threads[t] == ReaderAsleep || s.threads[t] == WriterAsleep
  }

  /** notify_one picks a sleeping writer if there is one. */
  predicate Picked(s: State, w: nat)
  {
    (exists u :: u in s.threads && s.threads[u] == WriterAsleep) ==> w in s.threads && s.threads[w] == WriterAsleep
  }

  function NotifyWriter(threads: map<nat, Thread>, w: nat): map<nat, Thread>
  {
    if w in threads && threads[w] == WriterAsleep then threads[w := WriterSignalled] else threads
  }

  function NotifyReaders(threads: map<nat, Thread>): map<nat, Thread>
  {
    map t | t in threads :: if threads[t] == ReaderAsleep then ReaderSignalled else threads[t]
  }

  function CheckRead(s: State, t: nat): State
  {
    if ReadAllowed(s.c) then State(ReaderIn(s.c), s.threads[t := Reading])
    else s.(threads := s.threads[t := ReaderAsleep])
  }

  function CheckWrite(s: State, t: nat): State
  {
    if WriteAllowed(s.c) then State(WriterIn(s.c), s.threads[t := Writing])
    else s.(threads := s.threads[t := WriterAsleep])
  }

  function Step(s: State, t: nat, a: Action): State
    requires Enabled(s, t, a)
  {
    match a
    case AcquireRead => CheckRead(s, t)
    case RecheckRead => CheckRead(s, t)
    case ReleaseRead(w) =>
      var c := ReaderOut(s.c);
      var threads := s.threads[t := Idle];
      State(c, if c.activeReaders == 0 then NotifyWriter(threads, w) else threads)
    case AcquireWrite => CheckWrite(s.(c := WriterWaits(s.c)), t)
    case RecheckWrite => CheckWrite(s, t)
    case ReleaseWrite(w) =>
      var threads := s.threads[t := Idle];
      State(WriterOut(s.c), if s.c.waitingWriters > 0 then NotifyWriter(threads, w) else NotifyReaders(threads))
    case SpuriousWake =>
      s.(threads := s.threads[t := if s.threads[t] == ReaderAsleep then ReaderSignalled else WriterSignalled])
  }

  predicate Init(s: State)
  {
    s.c == Counters(0, 0, false) && forall t :: t in s.threads ==> s.threads[t] == Idle
  }

  // --------------------------------------------------------------------- invariant

  function Readers(threads: map<nat, Thread>): set<nat>
  {
    set t | t in threads && threads[t] == Reading
  }

  function Writers(threads: map<nat, Thread>): set<nat>
  {
    set t | t in threads && threads[t] == Writing
  }

  function Queue(threads: map<nat, Thread>): set<nat>
  {
    set t | t in threads && Queued(threads[t])
  }

  function Asleep(threads: map<nat, Thread>, kind: Thread): set<nat>
  {
    set t | t in threads && threads[t] == kind
  }

  /** The counters count, and a writer has the lock to itself. */
  ghost predicate Counted(s: State)
  {
    && s.c.activeReaders == |Readers(s.threads)|
    && s.c.waitingWriters == |Queue(s.threads)|
    && |Writers(s.threads)| == (if s.c.anyActiveWriter then 1 else 0)
    && (s.c.anyActiveWriter ==> s.c.activeReaders == 0)
  }

  /** A writer sleeps on a free lock only while another writer has been signalled. */
  ghost predicate WritersAreWoken(s: State)
  {
    WriteAllowed(s.c) && Asleep(s.threads, WriterAsleep) != {} ==> Asleep(s.threads, WriterSignalled) != {}
  }

  /** Nobody sleeps on the read condition while it holds. */
  ghost predicate ReadersAreWoken(s: State)
  {
    ReadAllowed(s.c) ==> Asleep(s.threads, ReaderAsleep) == {}
  }

  ghost predicate Inv(s: State)
  {
    Counted(s) && WritersAreWoken(s) && ReadersAreWoken(s)
  }

  predicate Queued(th: Thread)
  {
    th == WriterAsleep || th == WriterSignalled
  }

  /** A step of t can do no more to another thread than wake it. */
  lemma OthersOnlyWake(s: State, t: nat, a: Action, u: nat)
    requires Enabled(s, t, a)
    ensures var threads := Step(s, t, a).threads;
            && threads.Keys == s.threads.Keys
            && (u in threads && u != t && threads[u] != s.threads[u] ==>
                  (s.threads[u] == ReaderAsleep && threads[u] == ReaderSignalled) ||
                  (s.threads[u] == WriterAsleep && threads[u] == WriterSignalled))
  {
  }

  /** Whom a step wakes: the last reader out one sleeping writer; a writer out one sleeping
      writer if any writer waits, and otherwise all sleeping readers; no other step anyone. */
  lemma OnlyTheNotifiedWake(s: State, t: nat, a: Action, u: nat)
    requires Enabled(s, t, a) && u in s.threads && u != t
    ensures var threads := Step(s, t, a).threads;
            u in threads &&
            (threads[u] != s.threads[u] <==>
             match a
             case ReleaseRead(w) => s.c.activeReaders == 1 && u == w && s.threads[u] == WriterAsleep
             case ReleaseWrite(w) =>
               if s.c.waitingWriters > 0 then u == w && s.threads[u] == WriterAsleep
               else s.threads[u] == ReaderAsleep
             case _ => false)
  {
  }

  /** Where a step leaves the thread that takes it: admitted exactly when the lock allows. */
  lemma AdmittedIff(s: State, t: nat, a: Action)
    requires Enabled(s, t, a)
    ensures var threads := Step(s, t, a).threads;
            t in threads && threads[t] ==
            match a
            case AcquireRead => if !s.c.anyActiveWriter && s.c.waitingWriters == 0 then Reading else ReaderAsleep
            case RecheckRead => if !s.c.anyActiveWriter && s.c.waitingWriters == 0 then Reading else ReaderAsleep
            case AcquireWrite => if s.c.activeReaders == 0 && !s.c.anyActiveWriter then Writing else WriterAsleep
            case RecheckWrite => if s.c.activeReaders == 0 && !s.c.anyActiveWriter then Writing else WriterAsleep
            case SpuriousWake => if s.threads[t] == ReaderAsleep then ReaderSignalled else WriterSignalled
            case _ => Idle
  {
  }

  /** The size of a class of threads after t alone has moved in or out of it. */
  lemma SizeAfter(before: set<nat>, after: set<nat>, t: nat)
    requires forall u :: u != t ==> (u in after <==> u in before)
    ensures |after| == |before| - (if t in before then 1 else 0) + (if t in after then 1 else 0)
  {
    var rest := before - {t};
    assert rest == after - {t};
    assert before == if t in before then rest + {t} else rest;
    assert after == if t in after then rest + {t} else rest;
  }

  lemma StepKeepsCounted(s: State, t: nat, a: Action)
    requires Inv(s) && Enabled(s, t, a)
    ensures Counted(Step(s, t, a))
  {
    var s' := Step(s, t, a);
    SizesAfterStep(s, t, a);
    if s.threads[t] == Reading {
      assert Readers(s.threads) >= {t};
      SubsetSmaller({t}, Readers(s.threads));
    }
  }

  lemma SizesAfterStep(s: State, t: nat, a: Action)
    requires Enabled(s, t, a)
    ensures var here, there := s.threads[t], Step(s, t, a).threads[t];
            var threads := Step(s, t, a).threads;
            && |Readers(threads)| == |Readers(s.threads)| - (if here == Reading then 1 else 0) + (if there == Reading then 1 else 0)
            && |Writers(threads)| == |Writers(s.threads)| - (if here == Writing then 1 else 0) + (if there == Writing then 1 else 0)
            && |Queue(threads)| == |Queue(s.threads)| - (if Queued(here) then 1 else 0) + (if Queued(there) then 1 else 0)
  {
    var threads := Step(s, t, a).threads;
    forall u | u != t
      ensures u in Readers(threads) <==> u in Readers(s.threads)
      ensures u in Writers(threads) <==> u in Writers(s.threads)
      ensures u in Queue(threads) <==> u in Queue(s.threads)
    {
      OthersOnlyWake(s, t, a, u);
    }
    SizeAfter(Readers(s.threads), Readers(threads), t);
    SizeAfter(Writers(s.threads), Writers(threads), t);
    SizeAfter(Queue(s.threads), Queue(threads), t);
  }

  lemma StepWakesWriters(s: State, t: nat, a: Action)
    requires Inv(s) && Enabled(s, t, a)
    ensures WritersAreWoken(Step(s, t, a))
  {
    StepKeepsCounted(s, t, a);
    var s' := Step(s, t, a);
    if WriteAllowed(s'.c) && Asleep(s'.threads, WriterAsleep) != {} {
      var u :| u in Asleep(s'.threads, WriterAsleep);
      if a.ReleaseRead? || a.ReleaseWrite? {
        assert s.threads[u] == WriterAsleep;
        assert u in Queue(s.threads);
        assert a.wake in Asleep(s'.threads, WriterSignalled);
      } else if s'.c == s.c {
        assert u in Asleep(s.threads, WriterAsleep) || u == t;
        if x :| x in Asleep(s.threads, WriterSignalled) {
          assert x in Asleep(s'.threads, WriterSignalled) || x == t;
        }
      }
    }
  }

  lemma StepWakesReaders(s: State, t: nat, a: Action)
    requires Inv(s) && Enabled(s, t, a)
    ensures ReadersAreWoken(Step(s, t, a))
  {
    StepKeepsCounted(s, t, a);
    var s' := Step(s, t, a);
    if ReadAllowed(s'.c) {
      forall u ensures u !in Asleep(s'.threads, ReaderAsleep) {
        assert u !in Asleep(s.threads, ReaderAsleep) || a.ReleaseWrite?;
      }
    }
  }

  lemma StepKeepsInv(s: State, t: nat, a: Action)
    requires Inv(s) && Enabled(s, t, a)
    ensures Inv(Step(s, t, a))
  {
    StepKeepsCounted(s, t, a);
    StepWakesWriters(s, t, a);
    StepWakesReaders(s, t, a);
  }

  // -------------------------------------------------------------------- whole runs

  ghost predicate Next(s: State, s': State)
  {
    exists t: nat, a :: Enabled(s, t, a) && s' == Step(s, t, a)
  }

  ghost predicate Run(run: seq<State>)
  {
    |run| > 0 && Init(run[0]) && forall i :: 0 <= i < |run| - 1 ==> Next(run[i], run[i + 1])
  }

  lemma {:induction false} RunKeepsInv(run: seq<State>, i: nat)
    requires Run(run) && i < |run|
    ensures Inv(run[i])
  {
    if i == 0 {
      var threads := run[0].threads;
      assert Readers(threads) == {} && Writers(threads) == {} && Queue(threads) == {};
      assert Asleep(threads, ReaderAsleep) == {} && Asleep(threads, WriterAsleep) == {};
    } else {
      RunKeepsInv(run, i - 1);
      assert Next(run[i - 1], run[i - 1 + 1]);
      var t: nat, a :| Enabled(run[i - 1], t, a) && run[i] == Step(run[i - 1], t, a);
      StepKeepsInv(run[i - 1], t, a);
    }
  }

  /** A writer excludes every reader and every other writer, in every run. */
  lemma WriterExcludesEveryone(run: seq<State>, i: nat, w: nat, u: nat)
    requires Run(run) && i < |run| && w in run[i].threads && u in run[i].threads && u != w
    requires run[i].threads[w] == Writing
    ensures run[i].threads[u] != Reading && run[i].threads[u] != Writing
  {
    RunKeepsInv(run, i);
    var readers, writers := Readers(run[i].threads), Writers(run[i].threads);
    SubsetSmaller({w}, writers);
    if u in writers {
      SubsetSmaller({w, u}, writers);
    }
    assert u in readers ==> |readers| > 0;
  }

  lemma NoReaderIsAdmitted(s: State, t: nat, a: Action, w: nat)
    requires Inv(s) && Enabled(s, t, a) && w in Queue(s.threads)
    ensures Readers(Step(s, t, a).threads) <= Readers(s.threads)
  {
    SubsetSmaller({w}, Queue(s.threads));
    forall u | u in Readers(Step(s, t, a).threads) ensures u in Readers(s.threads) {
      OthersOnlyWake(s, t, a, u);
    }
  }

  /** While some writer stays queued no new reader gets in: whoever reads at the end
      was reading all along. */
  lemma {:induction false} NoReaderOvertakesWriter(run: seq<State>, i: nat, j: nat, w: nat)
    requires Run(run) && i <= j < |run|
    requires forall k :: i <= k <= j ==> w in Queue(run[k].threads)
    ensures Readers(run[j].threads) <= Readers(run[i].threads)
    decreases j
  {
    if i < j {
      NoReaderOvertakesWriter(run, i, j - 1, w);
      RunKeepsInv(run, j - 1);
      assert Next(run[j - 1], run[j - 1 + 1]);
      var t: nat, a :| Enabled(run[j - 1], t, a) && run[j] == Step(run[j - 1], t, a);
      assert w in Queue(run[j - 1].threads);
      NoReaderIsAdmitted(run[j - 1], t, a, w);
    }
  }

  /** No wake-up is lost: a thread that sleeps on a condition which holds has someone
      already signalled on its behalf. */
  lemma NoLostWakeUp(run: seq<State>, i: nat)
    requires Run(run) && i < |run|
    ensures ReadersAreWoken(run[i]) && WritersAreWoken(run[i])
  {
    RunKeepsInv(run, i);
  }

  predicate Awake(th: Thread)
  {
    th == Reading || th == Writing || th == ReaderSignalled || th == WriterSignalled
  }

  /** Whoever holds the lock or has been signalled has a step to take. */
  lemma AwakeCanMove(s: State, t: nat) returns (a: Action)
    requires t in s.threads && Awake(s.threads[t])
    ensures Enabled(s, t, a) && !a.SpuriousWake?
  {
    var w: nat := 0;
    if v :| v in s.threads && s.threads[v] == WriterAsleep {
      w := v;
    }
    a := match s.threads[t]
         case Reading => ReleaseRead(w)
         case Writing => ReleaseWrite(w)
         case ReaderSignalled => RecheckRead
         case _ => RecheckWrite;
  }

  /** A thread outside the lock can always ask for it, and a sleeping one can wake for no
      reason. */
  lemma AlwaysPossible(s: State, t: nat)
    requires t in s.threads
    ensures s.threads[t] == Idle ==> Enabled(s, t, AcquireRead) && Enabled(s, t, AcquireWrite)
    ensures s.threads[t] == ReaderAsleep || s.threads[t] == WriterAsleep ==> Enabled(s, t, SpuriousWake)
  {
  }

  /** The lock never deadlocks: if anyone sleeps, another thread can take a step that is no
      spurious wake-up. */
  lemma SleepersAreNeverAlone(run: seq<State>, i: nat, u: nat) returns (t: nat, a: Action)
    requires Run(run) && i < |run| && u in run[i].threads
    requires run[i].threads[u] == ReaderAsleep || run[i].threads[u] == WriterAsleep
    ensures t != u && Enabled(run[i], t, a) && !a.SpuriousWake?
  {
    RunKeepsInv(run, i);
    t := SomeoneIsAwake(run[i], u);
    a := AwakeCanMove(run[i], t);
  }

  lemma SomeoneIsAwake(s: State, u: nat) returns (t: nat)
    requires Inv(s) && u in s.threads && (s.threads[u] == ReaderAsleep || s.threads[u] == WriterAsleep)
    ensures t in s.threads && Awake(s.threads[t])
  {
    if s.c.anyActiveWriter {
      t := ElementOf(Writers(s.threads));
    } else if s.c.activeReaders > 0 {
      t := ElementOf(Readers(s.threads));
    } else {
      assert s.threads[u] == ReaderAsleep ==> u in Asleep(s.threads, ReaderAsleep);
      assert s.threads[u] == WriterAsleep ==> u in Queue(s.threads);
      assert s.c.waitingWriters > 0;
      var q := ElementOf(Queue(s.threads));
      if s.threads[q] == WriterSignalled {
        t := q;
      } else {
        assert q in Asleep(s.threads, WriterAsleep);
        t := ElementOf(Asleep(s.threads, WriterSignalled));
      }
    }
  }
}
