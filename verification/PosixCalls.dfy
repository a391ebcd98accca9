/**
 The semaphore calls of the POSIX reader-writer lock (libqwsproto/qws_lock.c), read off the run of
 PosixLock: what one call does to the three semaphores, the list of calls a process has made since it
 entered, and the round trip of a lock and its unlock.
 */
module PosixCalls {
  import opened PosixLock

  datatype Semaphore = Counter | ReadGate | WriteMutex

  /** A call with what it brought: a trywait may fail, a getvalue returns a number. Entered is the call of
      qlock_lock itself. */
  datatype Event =
    | Entered(write: bool)
    | Wait(sem: Semaphore)
    | Try(sem: Semaphore, got: bool)
    | Post(sem: Semaphore)
    | GetValue(sem: Semaphore, value: int)

  function ValueOf(s: Sys, sem: Semaphore): int {
    match sem
    case Counter => s.c
    case ReadGate => s.rsem
    case WriteMutex => s.wsem
  }

  /** What the step looks like from outside: the call the process is about to make. */
  function EventOf(s: Sys, a: Action): Event
    requires a.p < |s.pcs| && (a.Go? ==> s.pcs[a.p] != Idle)
  {
    if a.Call? then Entered(a.write)
    else
      match s.pcs[a.p]
      case W1 => Wait(ReadGate)
      case W2 => Wait(WriteMutex)
      case Writing => Post(WriteMutex)
      case U2 => Post(ReadGate)
      case R1 => Wait(WriteMutex)
      case R2 => Try(ReadGate, s.rsem > 0)
      case R3 => Wait(Counter)
      case R4 => Post(WriteMutex)
      case Reading => Wait(WriteMutex)
      case V2 => Post(Counter)
      case V3 => GetValue(Counter, s.c)
      case V4 => Post(ReadGate)
      case V5 => Post(WriteMutex)
  }

  /** The difference an event makes to a semaphore. */
  function Change(e: Event, sem: Semaphore): int {
    if e.Entered? || e.sem != sem then 0
    else
      match e
      case Wait(_) => -1
      case Try(_, got) => if got then -1 else 0
      case Post(_) => 1
      case GetValue(_, _) => 0
  }

  /** A step of the lock is one such event: it changes the semaphores as the event says and no other
      process, a trywait fails only on an empty semaphore, a getvalue returns the value there is. */
  lemma StepIsItsEvent(s: Sys, a: Action)
    requires Conserved(s) && Enabled(s, a)
    ensures forall sem :: ValueOf(Next(s, a), sem) == ValueOf(s, sem) + Change(EventOf(s, a), sem)
    ensures EventOf(s, a).Try? ==> (EventOf(s, a).got <==> ValueOf(s, EventOf(s, a).sem) > 0)
    ensures EventOf(s, a).GetValue? ==> EventOf(s, a).value == ValueOf(s, EventOf(s, a).sem)
    ensures |Next(s, a).pcs| == |s.pcs|
    ensures forall q :: 0 <= q < |s.pcs| && q != a.p ==> Next(s, a).pcs[q] == s.pcs[q]
  {
  }

  /** A process in a call is held up exactly when its call is a wait and that semaphore is 0. */
  lemma OnlyWaitsBlock(s: Sys, p: nat)
    requires Conserved(s) && p < |s.pcs| && s.pcs[p] != Idle
    ensures Enabled(s, Go(p)) <==> (EventOf(s, Go(p)).Wait? ==> ValueOf(s, EventOf(s, Go(p)).sem) != 0)
  {
  }

  // ---------- the calls of one process ----------

  /** The events of process p since it last entered. */
  function Since(s: Sys, run: seq<Action>, p: nat, before: seq<Event>): seq<Event>
    requires IsRun(s, run)
    decreases |run|
  {
    if run == [] then before
    else
      var a := run[0];
      Since(Next(s, a), run[1..], p,
            if a.p != p then before else if a.Call? then [Entered(a.write)] else before + [EventOf(s, a)])
  }

  const WRITE_CALLS := [Entered(true), Wait(ReadGate), Wait(WriteMutex), Post(WriteMutex), Post(ReadGate)]

  /** The calls of a read lock. */
  function ReadLock(got: bool): seq<Event> {
    [Entered(false), Wait(WriteMutex), Try(ReadGate, got), Wait(Counter), Post(WriteMutex)]
  }

  /** The calls of a reader, in and out; the gate is posted when the counter read 200. */
  function ReadCalls(got: bool, value: int): seq<Event> {
    ReadLock(got) + [Wait(WriteMutex), Post(Counter), GetValue(Counter, value)]
    + (if value == 200 then [Post(ReadGate)] else []) + [Post(WriteMutex)]
  }

  /** The list is the first k calls of a reader. */
  predicate ReadPart(h: seq<Event>, k: nat)
    requires k <= 9
  {
    && |h| == k && (k > 2 ==> h[2].Try?) && (k > 7 ==> h[7].GetValue?) && (k == 9 ==> h[7].value == 200)
    && h == ReadCalls(k > 2 && h[2].got, if k > 7 then h[7].value else 0)[..k]
  }

  ghost predicate Complete(h: seq<Event>) {
    h == WRITE_CALLS || exists got, value :: h == ReadCalls(got, value)
  }

  /** How far the list has come says where the process is. */
  ghost predicate Tells(h: seq<Event>, pc: Pc) {
    match pc
    case Idle => h == [] || Complete(h)
    case W1 => h == WRITE_CALLS[..1]
    case W2 => h == WRITE_CALLS[..2]
    case Writing => h == WRITE_CALLS[..3]
    case U2 => h == WRITE_CALLS[..4]
    case R1 => ReadPart(h, 1)
    case R2 => ReadPart(h, 2)
    case R3 => ReadPart(h, 3)
    case R4 => ReadPart(h, 4)
    case Reading => ReadPart(h, 5)
    case V2 => ReadPart(h, 6)
    case V3 => ReadPart(h, 7)
    case V4 => ReadPart(h, 8) && h[7].value == 200
    case V5 => (ReadPart(h, 8) && h[7].value != 200) || ReadPart(h, 9)
  }

  lemma StepTells(s: Sys, a: Action, h: seq<Event>)
    requires Enabled(s, a) && Tells(h, s.pcs[a.p])
    ensures Tells(if a.Call? then [Entered(a.write)] else h + [EventOf(s, a)], NextPc(s, a))
  {
    if a.Go? {
      match s.pcs[a.p]
      case V3 =>
        assert ReadPart(h + [GetValue(Counter, s.c)], 8);
      case V5 =>
        var value := h[7].value;
        assert h + [Post(WriteMutex)] == ReadCalls(h[2].got, value);
      case _ =>
    }
  }

  lemma {:induction false} RunTells(s: Sys, run: seq<Action>, p: nat, h: seq<Event>)
    requires IsRun(s, run) && p < |s.pcs| && Tells(h, s.pcs[p])
    ensures |After(s, run).pcs| == |s.pcs| && Tells(Since(s, run, p, h), After(s, run).pcs[p])
    decreases |run|
  {
    if run != [] {
      var a := run[0];
      var next := if a.p != p then h else if a.Call? then [Entered(a.write)] else h + [EventOf(s, a)];
      if a.p == p {
        StepTells(s, a, h);
      }
      RunTells(Next(s, a), run[1..], p, next);
    }
  }

  lemma TellsTheSource(h: seq<Event>, pc: Pc)
    requires Tells(h, pc)
    ensures h <= WRITE_CALLS || exists got, value :: h <= ReadCalls(got, value)
    ensures pc == Idle <==> h == [] || Complete(h)
    ensures pc == Writing <==> h == [Entered(true), Wait(ReadGate), Wait(WriteMutex)]
    ensures pc == Reading <==> exists got :: h == ReadLock(got)
  {
  }

  /** Over every run, what a process has called since it entered is a beginning of the source's list for a
      writer or a reader, it is out exactly when the list is complete, and it holds the lock exactly when
      it has made the calls of the lock and none of the unlock. */
  lemma CallsFollowTheSource(n: nat, run: seq<Action>, p: nat)
    requires IsRun(Start(n), run) && p < n
    ensures |After(Start(n), run).pcs| == n
    ensures var h, pc := Since(Start(n), run, p, []), After(Start(n), run).pcs[p];
            && (h <= WRITE_CALLS || exists got, value :: h <= ReadCalls(got, value))
            && (pc == Idle <==> h == [] || Complete(h))
            && (pc == Writing <==> h == [Entered(true), Wait(ReadGate), Wait(WriteMutex)])
            && (pc == Reading <==> exists got :: h == ReadLock(got))
  {
    RunTells(Start(n), run, p, []);
    TellsTheSource(Since(Start(n), run, p, []), After(Start(n), run).pcs[p]);
  }

  // ---------- round trips ----------

  function Goes(p: nat, k: nat): seq<Action> {
    if k == 0 then [] else [Go(p)] + Goes(p, k - 1)
  }

  lemma GoOn(s: Sys, p: nat, k: nat)
    requires k > 0 && Enabled(s, Go(p)) && IsRun(Next(s, Go(p)), Goes(p, k - 1))
    ensures IsRun(s, Goes(p, k)) && After(s, Goes(p, k)) == After(Next(s, Go(p)), Goes(p, k - 1))
  {
    RunOfMore(s, Go(p), Goes(p, k - 1));
  }

  /** A write lock and its unlock, undisturbed, end after four calls where they began. */
  lemma WriteRoundTrip(s: Sys, p: nat)
    requires p < |s.pcs| && s.pcs[p] == Idle && s.rsem > 0 && s.wsem > 0
    ensures var run := [Call(p, true), Go(p), Go(p), Go(p), Go(p)];
            IsRun(s, run) && After(s, run) == s
  {
    var s1 := Next(s, Call(p, true));
    var s2 := Next(s1, Go(p));
    var s3 := Next(s2, Go(p));
    var s4 := Next(s3, Go(p));
    var s5 := Next(s4, Go(p));
    assert s5.pcs == s.pcs;
    RunOfFive(s, Call(p, true), Go(p));
  }

  /** A reader that is in leaves, four calls or, as the last, five; the last one posts the gate. */
  lemma ReaderLeaves(s: Sys, p: nat)
    requires p < |s.pcs| && s.pcs[p] == Reading && s.wsem > 0
    ensures var run := Goes(p, if s.c == 199 then 5 else 4);
            && IsRun(s, run)
            && After(s, run) == Sys(s.c + 1, s.rsem + (if s.c == 199 then 1 else 0), s.wsem, s.pcs[p := Idle])
  {
    var s1 := Next(s, Go(p));
    var s2 := Next(s1, Go(p));
    var s3 := Next(s2, Go(p));
    if s.c == 199 {
      var s4 := Next(s3, Go(p));
      GoOn(s4, p, 1);
      GoOn(s3, p, 2);
      GoOn(s2, p, 3);
      GoOn(s1, p, 4);
      GoOn(s, p, 5);
    } else {
      GoOn(s3, p, 1);
      GoOn(s2, p, 2);
      GoOn(s1, p, 3);
      GoOn(s, p, 4);
    }
  }

  lemma ReaderEnters(s: Sys, p: nat)
    requires p < |s.pcs| && s.pcs[p] == Idle && s.wsem > 0 && s.c > 0
    ensures var run := [Call(p, false), Go(p), Go(p), Go(p), Go(p)];
            && IsRun(s, run)
            && After(s, run) == Sys(s.c - 1, if s.rsem > 0 then s.rsem - 1 else s.rsem, s.wsem, s.pcs[p := Reading])
  {
    RunOfFive(s, Call(p, false), Go(p));
  }

  /** A read lock and its unlock, undisturbed, end where they began exactly when the gate was open and no
      reader in, or closed and some reader in. */
  lemma ReadRoundTripIff(s: Sys, p: nat)
    requires p < |s.pcs| && s.pcs[p] == Idle && s.wsem > 0 && s.c > 0
    ensures var run := [Call(p, false), Go(p), Go(p), Go(p), Go(p)] + Goes(p, if s.c == 200 then 5 else 4);
            IsRun(s, run) && (After(s, run) == s <==> (s.rsem > 0 <==> s.c == 200))
  {
    var enter := [Call(p, false), Go(p), Go(p), Go(p), Go(p)];
    ReaderEnters(s, p);
    var t := After(s, enter);
    ReaderLeaves(t, p);
    RunThen(s, enter, Goes(p, if s.c == 200 then 5 else 4));
    assert t.pcs[p := Idle] == s.pcs;
  }
}
