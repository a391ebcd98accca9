/**
 The reader-writer lock over three POSIX semaphores (qlock_lock and qlock_unlock in
 libqwsproto/qws_lock.c), any number of processes, one semaphore call at a time. sem_wait waits for a
 positive value, sem_trywait takes one if it is there and goes on either way, sem_post adds one
 (POSIX.1-2017, System Interfaces). A process that cannot get past a wait has no step.
 */
module PosixLock {
  import opened Counting

  const MAX_LOCKS := 200

  /** Where a process is: the semaphore call it makes next. */
  datatype Pc =
    | Idle
    | W1      // write lock: wait(rsem)
    | W2      // wait(wsem)
    | Writing // write unlock: post(wsem)
    | U2      // post(rsem)
    | R1      // read lock: wait(wsem)
    | R2      // trywait(rsem)
    | R3      // wait(c)
    | R4      // post(wsem)
    | Reading // read unlock: wait(wsem)
    | V2      // post(c)
    | V3      // getvalue(c)
    | V4      // post(rsem), as the value was MAX_LOCKS
    | V5      // post(wsem)

  datatype Sys = Sys(c: int, rsem: int, wsem: int, pcs: seq<Pc>)

  datatype Action = Call(p: nat, write: bool) | Go(p: nat)

  function Start(n: nat): Sys {
    Sys(MAX_LOCKS, 1, 1, seq(n, _ => Idle))
  }

  predicate Enabled(s: Sys, a: Action) {
    a.p < |s.pcs| &&
    if a.Call? then s.pcs[a.p] == Idle
    else
      match s.pcs[a.p]
      case Idle => false
      case W1 => s.rsem > 0
      case W2 => s.wsem > 0
      case R1 => s.wsem > 0
      case R3 => s.c > 0
      case Reading => s.wsem > 0
      case _ => true
  }

  function NextPc(s: Sys, a: Action): Pc
    requires Enabled(s, a)
  {
    if a.Call? then (if a.write then W1 else R1)
    else
      match s.pcs[a.p]
      case W1 => W2 case W2 => Writing case Writing => U2
      case R1 => R2 case R2 => R3 case R3 => R4 case R4 => Reading
      case Reading => V2 case V2 => V3
      case V3 => if s.c == MAX_LOCKS then V4 else V5
      case V4 => V5
      case _ => Idle
  }

  function Next(s: Sys, a: Action): Sys
    requires Enabled(s, a)
  {
    var pcs := s.pcs[a.p := NextPc(s, a)];
    if a.Call? then s.(pcs := pcs)
    else
      match s.pcs[a.p]
      case W1 => s.(rsem := s.rsem - 1, pcs := pcs)
      case W2 => s.(wsem := s.wsem - 1, pcs := pcs)
      case Writing => s.(wsem := s.wsem + 1, pcs := pcs)
      case U2 => s.(rsem := s.rsem + 1, pcs := pcs)
      case R1 => s.(wsem := s.wsem - 1, pcs := pcs)
      case R2 => s.(rsem := if s.rsem > 0 then s.rsem - 1 else s.rsem, pcs := pcs)
      case R3 => s.(c := s.c - 1, pcs := pcs)
      case R4 => s.(wsem := s.wsem + 1, pcs := pcs)
      case Reading => s.(wsem := s.wsem - 1, pcs := pcs)
      case V2 => s.(c := s.c + 1, pcs := pcs)
      case V3 => s.(pcs := pcs)
      case V4 => s.(rsem := s.rsem + 1, pcs := pcs)
      case V5 => s.(wsem := s.wsem + 1, pcs := pcs)
      case Idle => s
  }

  // ---------- runs ----------

  predicate IsRun(s: Sys, run: seq<Action>)
    decreases |run|
  {
    run == [] || (Enabled(s, run[0]) && IsRun(Next(s, run[0]), run[1..]))
  }

  function After(s: Sys, run: seq<Action>): Sys
    requires IsRun(s, run)
    decreases |run|
  {
    if run == [] then s else After(Next(s, run[0]), run[1..])
  }

  lemma {:induction false} RunThen(s: Sys, a: seq<Action>, b: seq<Action>)
    requires IsRun(s, a) && IsRun(After(s, a), b)
    ensures IsRun(s, a + b) && After(s, a + b) == After(After(s, a), b)
    decreases |a|
  {
    if a == [] {
      assert a + b == b;
    } else {
      assert (a + b)[0] == a[0] && (a + b)[1..] == a[1..] + b;
      RunThen(Next(s, a[0]), a[1..], b);
    }
  }

  // ---------- what holds in every run ----------

  /** Between a wait and the post of wsem. */
  const IN_WSEM: set<Pc> := {Writing, R2, R3, R4, V2, V3, V4, V5}

  /** Counted in by c. */
  const COUNTED: set<Pc> := {R4, Reading, V2}

  predicate Conserved(s: Sys) {
    && 0 <= s.c && 0 <= s.rsem && 0 <= s.wsem
    && s.wsem + CountIn(s.pcs, IN_WSEM) == 1
    && s.c + CountIn(s.pcs, COUNTED) == MAX_LOCKS
  }

  lemma StepConserves(s: Sys, a: Action)
    requires Conserved(s) && Enabled(s, a)
    ensures Conserved(Next(s, a))
  {
    CountUpdated(s.pcs, a.p, NextPc(s, a), IN_WSEM);
    CountUpdated(s.pcs, a.p, NextPc(s, a), COUNTED);
  }

  lemma {:induction false} RunConserves(s: Sys, run: seq<Action>)
    requires Conserved(s) && IsRun(s, run)
    ensures Conserved(After(s, run)) && |After(s, run).pcs| == |s.pcs|
    decreases |run|
  {
    if run != [] {
      StepConserves(s, run[0]);
      RunConserves(Next(s, run[0]), run[1..]);
    }
  }

  lemma StartConserved(n: nat)
    ensures Conserved(Start(n))
  {
    CountNone(Start(n).pcs, IN_WSEM);
    CountNone(Start(n).pcs, COUNTED);
  }

  lemma OneInWsem(s: Sys, i: nat, j: nat)
    requires Conserved(s) && i < |s.pcs| && j < |s.pcs| && s.pcs[i] in IN_WSEM && s.pcs[j] in IN_WSEM
    ensures i == j && s.wsem == 0
  {
    CountMembers(s.pcs, i, j, IN_WSEM);
  }

  /** Every interleaving: the two conservation laws, so never two writers, nor a writer beside any
      process in the middle of a read lock or unlock. */
  lemma NeverTwoWriters(n: nat, run: seq<Action>, i: nat, j: nat)
    requires IsRun(Start(n), run) && i < n && j < n && i != j
    ensures var s := After(Start(n), run);
            && s.wsem + CountIn(s.pcs, IN_WSEM) == 1
            && s.c + CountIn(s.pcs, COUNTED) == MAX_LOCKS
            && |s.pcs| == n
            && (s.pcs[i] == Writing ==> s.pcs[j] != Writing && s.pcs[j] !in IN_WSEM)
  {
    StartConserved(n);
    RunConserves(Start(n), run);
    var s := After(Start(n), run);
    if s.pcs[i] == Writing && s.pcs[j] in IN_WSEM {
      OneInWsem(s, i, j);
    }
  }

  // ---------- the capacity ----------

  /** Reader p waits for the counter while it holds wsem. */
  predicate Starved(s: Sys, p: nat) {
    p < |s.pcs| && s.pcs[p] == R3 && s.c == 0
  }

  /** That wait never ends: nobody can post the counter without wsem. */
  lemma {:induction false} StarvedForever(s: Sys, p: nat, run: seq<Action>)
    requires Conserved(s) && Starved(s, p) && IsRun(s, run)
    ensures Starved(After(s, run), p)
    decreases |run|
  {
    if run != [] {
      var a := run[0];
      StepConserves(s, a);
      if a.p != p && s.pcs[a.p] in IN_WSEM {
        OneInWsem(s, p, a.p);
      }
      assert Starved(Next(s, a), p);
      StarvedForever(Next(s, a), p, run[1..]);
    }
  }

  /** The first k processes have read locks, one after the other. */
  function Crowded(n: nat, k: nat): Sys
    requires k <= n
  {
    Sys(MAX_LOCKS - k, if k == 0 then 1 else 0, 1, seq(n, i => if i < k then Reading else Idle))
  }

  lemma OneMoreReader(n: nat, k: nat)
    requires k < n && k < MAX_LOCKS
    ensures var enter := [Call(k, false), Go(k), Go(k), Go(k), Go(k)];
            IsRun(Crowded(n, k), enter) && After(Crowded(n, k), enter) == Crowded(n, k + 1)
  {
    var s0 := Crowded(n, k);
    var s1 := Next(s0, Call(k, false));
    var s2 := Next(s1, Go(k));
    var s3 := Next(s2, Go(k));
    var s4 := Next(s3, Go(k));
    var s5 := Next(s4, Go(k));
    assert s5.pcs == Crowded(n, k + 1).pcs;
    RunOfFive(s0, Call(k, false), Go(k));
  }

  lemma RunOfFive(s: Sys, a: Action, b: Action)
    requires Enabled(s, a) && Enabled(Next(s, a), b) && Enabled(Next(Next(s, a), b), b)
    requires Enabled(Next(Next(Next(s, a), b), b), b)
    requires Enabled(Next(Next(Next(Next(s, a), b), b), b), b)
    ensures IsRun(s, [a, b, b, b, b])
    ensures After(s, [a, b, b, b, b]) == Next(Next(Next(Next(Next(s, a), b), b), b), b)
  {
    var s1 := Next(s, a);
    var s2 := Next(s1, b);
    var s3 := Next(s2, b);
    var s4 := Next(s3, b);
    RunOfOne(s4, b);
    RunOfMore(s3, b, [b]);
    RunOfMore(s2, b, [b, b]);
    RunOfMore(s1, b, [b, b, b]);
    RunOfMore(s, a, [b, b, b, b]);
  }

  lemma RunOfOne(s: Sys, a: Action)
    requires Enabled(s, a)
    ensures IsRun(s, [a]) && After(s, [a]) == Next(s, a)
  {
    assert [a][1..] == [];
  }

  lemma RunOfMore(s: Sys, a: Action, rest: seq<Action>)
    requires Enabled(s, a) && IsRun(Next(s, a), rest)
    ensures IsRun(s, [a] + rest) && After(s, [a] + rest) == After(Next(s, a), rest)
  {
    assert ([a] + rest)[1..] == rest;
  }

  lemma {:induction false} CrowdIsReachable(n: nat, k: nat) returns (run: seq<Action>)
    requires k <= n && k <= MAX_LOCKS
    ensures IsRun(Start(n), run) && After(Start(n), run) == Crowded(n, k)
  {
    if k == 0 {
      run := [];
      assert Start(n).pcs == Crowded(n, 0).pcs;
    } else {
      var front := CrowdIsReachable(n, k - 1);
      OneMoreReader(n, k - 1);
      var enter := [Call(k - 1, false), Go(k - 1), Go(k - 1), Go(k - 1), Go(k - 1)];
      RunThen(Start(n), front, enter);
      run := front + enter;
    }
  }

  lemma EnoughForAll(s: Sys, p: nat)
    requires Conserved(s) && |s.pcs| <= MAX_LOCKS && p < |s.pcs| && s.pcs[p] == R3
    ensures s.c > 0
  {
    CountRoom(s.pcs, p, COUNTED);
  }

  // ---------- readers against writers ----------

  /** A writer that took rsem and has not posted it. */
  const OWNERS: set<Pc> := {W2, Writing, U2}

  /** Readers that keep rsem taken for all of them. */
  const READERS: set<Pc> := {R3, R4, Reading, V2, V3, V4}

  function Token(s: Sys): int {
    if CountIn(s.pcs, READERS) > 0 then 1 else 0
  }

  /** A process about to post rsem for the readers is the last of them. */
  predicate LastReaderKnown(s: Sys) {
    forall i :: 0 <= i < |s.pcs| && s.pcs[i] == V4 ==> s.c == MAX_LOCKS
  }

  /** rsem is free, or one writer owns it, or the readers do. */
  predicate Gated(s: Sys) {
    s.rsem + CountIn(s.pcs, OWNERS) + Token(s) == 1 && LastReaderKnown(s)
  }

  predicate WriterOwnsGate(s: Sys) {
    exists q :: 0 <= q < |s.pcs| && s.pcs[q] in OWNERS
  }

  /** A reader tries rsem while a writer owns it. */
  predicate TriesUnderWriter(s: Sys, a: Action) {
    a.Go? && a.p < |s.pcs| && s.pcs[a.p] == R2 && WriterOwnsGate(s)
  }

  lemma OtherInCounted(s: Sys, p: nat)
    requires Conserved(s) && p < |s.pcs| && s.pcs[p] == V3 && s.c < MAX_LOCKS
    ensures CountIn(s.pcs[p := V5], READERS) > 0
  {
    CountNone(s.pcs, COUNTED);
    var i :| 0 <= i < |s.pcs| && s.pcs[i] in COUNTED;
    assert s.pcs[p := V5][i] in READERS;
    CountNone(s.pcs[p := V5], READERS);
  }

  lemma NoOtherReader(s: Sys, p: nat)
    requires Conserved(s) && p < |s.pcs| && s.pcs[p] == V4 && s.c == MAX_LOCKS
    ensures CountIn(s.pcs[p := V5], READERS) == 0
  {
    CountNone(s.pcs, COUNTED);
    forall i | 0 <= i < |s.pcs| && i != p
      ensures s.pcs[i] !in READERS
    {
      if s.pcs[i] in IN_WSEM {
        OneInWsem(s, i, p);
      }
    }
    CountNone(s.pcs[p := V5], READERS);
  }

  lemma LastReaderKept(s: Sys, a: Action)
    requires Conserved(s) && LastReaderKnown(s) && Enabled(s, a)
    ensures LastReaderKnown(Next(s, a))
  {
    forall i | 0 <= i < |s.pcs| && Next(s, a).pcs[i] == V4
      ensures Next(s, a).c == MAX_LOCKS
    {
      if i != a.p && s.pcs[a.p] in IN_WSEM {
        OneInWsem(s, i, a.p);
      }
    }
  }

  /** A step keeps "rsem free, one writer's or the readers'" exactly when it is not a reader's trywait
      under a writer that owns rsem. */
  lemma StepKeepsGateIff(s: Sys, a: Action)
    requires Conserved(s) && Gated(s) && Enabled(s, a)
    ensures Gated(Next(s, a)) <==> !TriesUnderWriter(s, a)
  {
    LastReaderKept(s, a);
    CountNone(s.pcs, OWNERS);
    CountUpdated(s.pcs, a.p, NextPc(s, a), OWNERS);
    CountUpdated(s.pcs, a.p, NextPc(s, a), READERS);
    CountMembers(s.pcs, a.p, a.p, {s.pcs[a.p]});
    if a.Go? && s.pcs[a.p] == V3 && s.c < MAX_LOCKS {
      OtherInCounted(s, a.p);
    } else if a.Go? && s.pcs[a.p] == V4 {
      NoOtherReader(s, a.p);
    } else if s.pcs[a.p] in READERS {
      CountMembers(s.pcs, a.p, a.p, READERS);
    }
  }

  /** No reader's trywait comes while a writer owns rsem. */
  predicate IsClean(s: Sys, run: seq<Action>)
    requires IsRun(s, run)
    decreases |run|
  {
    run == [] || (!TriesUnderWriter(s, run[0]) && IsClean(Next(s, run[0]), run[1..]))
  }

  lemma {:induction false} CleanRunKeepsGate(s: Sys, run: seq<Action>)
    requires Conserved(s) && Gated(s) && IsRun(s, run) && IsClean(s, run)
    ensures Conserved(After(s, run)) && Gated(After(s, run))
    decreases |run|
  {
    if run != [] {
      StepConserves(s, run[0]);
      StepKeepsGateIff(s, run[0]);
      CleanRunKeepsGate(Next(s, run[0]), run[1..]);
    }
  }

  lemma GateExcludes(s: Sys, i: nat, j: nat)
    requires Conserved(s) && Gated(s) && i < |s.pcs| && j < |s.pcs| && s.pcs[i] in OWNERS
    ensures s.rsem == 0 && s.pcs[j] !in READERS && (s.pcs[j] in OWNERS ==> i == j)
  {
    CountMembers(s.pcs, i, i, OWNERS);
    CountNone(s.pcs, READERS);
    if s.pcs[j] in OWNERS {
      CountMembers(s.pcs, i, j, OWNERS);
    }
  }

  /** In every clean run rsem stays binary, and from the moment a writer has rsem until it posts it no
      other process is in a read lock or owns rsem. */
  lemma CleanRunExcludes(n: nat, run: seq<Action>, i: nat, j: nat)
    requires IsRun(Start(n), run) && IsClean(Start(n), run) && i < n && j < n && i != j
    ensures var s := After(Start(n), run);
            && |s.pcs| == n && 0 <= s.rsem <= 1
            && (s.pcs[i] in OWNERS ==> s.pcs[j] !in READERS && s.pcs[j] !in OWNERS)
            && (s.pcs[i] == Writing ==> s.pcs[j] != Reading && s.pcs[j] != Writing)
  {
    StartConserved(n);
    CountNone(Start(n).pcs, OWNERS);
    CountNone(Start(n).pcs, READERS);
    RunConserves(Start(n), run);
    CleanRunKeepsGate(Start(n), run);
    var s := After(Start(n), run);
    if s.pcs[i] in OWNERS {
      GateExcludes(s, i, j);
    }
  }

  predicate ReaderBesideWriter(s: Sys) {
    exists i, j :: 0 <= i < |s.pcs| && 0 <= j < |s.pcs| && s.pcs[i] == Reading && s.pcs[j] == Writing
  }

  /** After the reader's trywait, a clean continuation brings a reader and a writer in together. */
  ghost predicate CanCollide(s: Sys) {
    exists run :: IsRun(s, run) && IsClean(s, run) && ReaderBesideWriter(After(s, run))
  }

  lemma CleanMore(s: Sys, a: Action, rest: seq<Action>)
    requires Enabled(s, a) && IsRun(Next(s, a), rest) && IsClean(Next(s, a), rest)
    requires a.Call? || s.pcs[a.p] != R2
    ensures IsRun(s, [a] + rest) && IsClean(s, [a] + rest)
    ensures After(s, [a] + rest) == After(Next(s, a), rest)
  {
    assert ([a] + rest)[1..] == rest;
  }

  lemma CollideMore(s: Sys, a: Action)
    requires Enabled(s, a) && CanCollide(Next(s, a)) && (a.Call? || s.pcs[a.p] != R2)
    ensures CanCollide(s)
  {
    var rest :| IsRun(Next(s, a), rest) && IsClean(Next(s, a), rest) && ReaderBesideWriter(After(Next(s, a), rest));
    CleanMore(s, a, rest);
  }

  lemma CollideNow(s: Sys, p: nat, q: nat)
    requires p < |s.pcs| && q < |s.pcs| && s.pcs[p] == Reading && s.pcs[q] == Writing
    ensures CanCollide(s)
  {
    assert ReaderBesideWriter(After(s, []));
  }

  /** The reader goes in; the waiting writer follows. */
  lemma WaitingWriterFollows(s: Sys, p: nat, q: nat)
    requires p < |s.pcs| && q < |s.pcs| && s.pcs[p] == R3 && s.pcs[q] == W2 && s.c > 0 && s.wsem == 0
    ensures CanCollide(s)
  {
    var s1 := Next(s, Go(p));
    var s2 := Next(s1, Go(p));
    var s3 := Next(s2, Go(q));
    CollideNow(s3, p, q);
    CollideMore(s2, Go(q));
    CollideMore(s1, Go(p));
    CollideMore(s, Go(p));
  }

  /** The reader goes in; the leaving writer posts rsem and comes straight back. */
  lemma LeavingWriterReturns(s: Sys, p: nat, q: nat)
    requires p < |s.pcs| && q < |s.pcs| && s.pcs[p] == R3 && s.pcs[q] == U2 && s.c > 0 && s.wsem == 0 && s.rsem >= 0
    ensures CanCollide(s)
  {
    var s1 := Next(s, Go(p));
    var s2 := Next(s1, Go(p));
    var s3 := Next(s2, Go(q));
    var s4 := Next(s3, Call(q, true));
    var s5 := Next(s4, Go(q));
    var s6 := Next(s5, Go(q));
    CollideNow(s6, p, q);
    CollideMore(s5, Go(q));
    CollideMore(s4, Go(q));
    CollideMore(s3, Call(q, true));
    CollideMore(s2, Go(q));
    CollideMore(s1, Go(p));
    CollideMore(s, Go(p));
  }

  /** While a writer owns rsem in a sound state no reader is counted in. */
  lemma OwnerMeansRoom(s: Sys)
    requires Conserved(s) && Gated(s) && WriterOwnsGate(s)
    ensures s.c == MAX_LOCKS
  {
    var q :| 0 <= q < |s.pcs| && s.pcs[q] in OWNERS;
    forall i | 0 <= i < |s.pcs| ensures s.pcs[i] !in COUNTED {
      GateExcludes(s, q, i);
    }
    CountNone(s.pcs, COUNTED);
  }

  /** A trywait from a sound state is what lets a reader and a writer in together later on, exactly when a
      writer owns rsem at that moment. */
  lemma TrywaitAdmitsCollisionIff(s: Sys, p: nat)
    requires Conserved(s) && Gated(s) && p < |s.pcs| && s.pcs[p] == R2
    ensures CanCollide(Next(s, Go(p))) <==> WriterOwnsGate(s)
  {
    var t := Next(s, Go(p));
    StepConserves(s, Go(p));
    if WriterOwnsGate(s) {
      OwnerMeansRoom(s);
      var q :| 0 <= q < |s.pcs| && s.pcs[q] in OWNERS;
      OneInWsem(s, p, p);
      if s.pcs[q] == Writing {
        OneInWsem(s, p, q);
      } else if s.pcs[q] == W2 {
        WaitingWriterFollows(t, p, q);
      } else {
        LeavingWriterReturns(t, p, q);
      }
    } else {
      StepKeepsGateIff(s, Go(p));
      forall run | IsRun(t, run) && IsClean(t, run)
        ensures !ReaderBesideWriter(After(t, run))
      {
        CleanRunKeepsGate(t, run);
        NoCollision(After(t, run));
      }
    }
  }

  lemma NoCollision(s: Sys)
    requires Conserved(s) && Gated(s)
    ensures !ReaderBesideWriter(s)
  {
    forall i, j | 0 <= i < |s.pcs| && 0 <= j < |s.pcs| && s.pcs[i] == Reading && s.pcs[j] == Writing
      ensures false
    {
      GateExcludes(s, j, i);
    }
  }

  /** The lock does not always keep readers and writers apart: two processes are enough. */
  lemma ExclusionCanFail() returns (run: seq<Action>)
    ensures IsRun(Start(2), run) && ReaderBesideWriter(After(Start(2), run))
  {
    var s1 := Next(Start(2), Call(0, true));
    var s2 := Next(s1, Go(0));
    var s3 := Next(s2, Call(1, false));
    var s4 := Next(s3, Go(1));
    var s5 := Next(s4, Go(1));
    WaitingWriterFollows(s5, 1, 0);
    var rest :| IsRun(s5, rest) && IsClean(s5, rest) && ReaderBesideWriter(After(s5, rest));
    RunOfMore(s4, Go(1), rest);
    RunOfMore(s3, Go(1), [Go(1)] + rest);
    RunOfMore(s2, Call(1, false), [Go(1)] + ([Go(1)] + rest));
    RunOfMore(s1, Go(0), [Call(1, false)] + ([Go(1)] + ([Go(1)] + rest)));
    run := [Call(0, true)] + ([Go(0)] + ([Call(1, false)] + ([Go(1)] + ([Go(1)] + rest))));
    RunOfMore(Start(2), Call(0, true), run[1..]);
  }

  // ---------- no deadlock ----------

  /** In every run, clean or not: rsem is free or somebody will post it. */
  predicate GateReturns(s: Sys) {
    s.rsem + CountIn(s.pcs, OWNERS) + Token(s) >= 1 && LastReaderKnown(s)
  }

  lemma StepKeepsGateReturning(s: Sys, a: Action)
    requires Conserved(s) && GateReturns(s) && Enabled(s, a)
    ensures GateReturns(Next(s, a))
  {
    LastReaderKept(s, a);
    CountUpdated(s.pcs, a.p, NextPc(s, a), OWNERS);
    CountUpdated(s.pcs, a.p, NextPc(s, a), READERS);
    CountMembers(s.pcs, a.p, a.p, {s.pcs[a.p]});
    if a.Go? && s.pcs[a.p] == V3 && s.c < MAX_LOCKS {
      OtherInCounted(s, a.p);
    }
  }

  lemma {:induction false} RunKeepsGateReturning(s: Sys, run: seq<Action>)
    requires Conserved(s) && GateReturns(s) && IsRun(s, run)
    ensures GateReturns(After(s, run))
    decreases |run|
  {
    if run != [] {
      StepConserves(s, run[0]);
      StepKeepsGateReturning(s, run[0]);
      RunKeepsGateReturning(Next(s, run[0]), run[1..]);
    }
  }

  /** Somebody is in a call and nobody can make the next semaphore call. */
  predicate Wedged(s: Sys) {
    && (exists p :: 0 <= p < |s.pcs| && s.pcs[p] != Idle)
    && (forall p: nat :: p < |s.pcs| ==> !Enabled(s, Go(p)))
  }

  /** If nobody is inside wsem it is free, and then only a wait for rsem can hold anybody up. */
  lemma OnlyWritersWait(s: Sys)
    requires Conserved(s) && |s.pcs| <= MAX_LOCKS && forall p: nat :: p < |s.pcs| ==> !Enabled(s, Go(p))
    ensures forall p: nat :: p < |s.pcs| ==> s.pcs[p] == Idle || s.pcs[p] == W1
  {
    forall p: nat | p < |s.pcs|
      ensures s.pcs[p] !in IN_WSEM
    {
      assert !Enabled(s, Go(p));
      if s.pcs[p] == R3 {
        EnoughForAll(s, p);
      }
    }
    CountNone(s.pcs, IN_WSEM);
    forall p: nat | p < |s.pcs|
      ensures s.pcs[p] == Idle || s.pcs[p] == W1
    {
      assert !Enabled(s, Go(p));
    }
  }

  /** With at most 200 processes some process in a call can always go on, whatever the run. */
  lemma NeverWedged(s: Sys)
    requires Conserved(s) && GateReturns(s) && |s.pcs| <= MAX_LOCKS
    ensures !Wedged(s)
  {
    if forall p: nat :: p < |s.pcs| ==> !Enabled(s, Go(p)) {
      OnlyWritersWait(s);
      CountNone(s.pcs, OWNERS);
      CountNone(s.pcs, READERS);
      forall p | 0 <= p < |s.pcs| ensures s.pcs[p] == Idle {
        assert !Enabled(s, Go(p));
      }
    }
  }

  ghost predicate CanWedge(n: nat) {
    exists run :: IsRun(Start(n), run) && Wedged(After(Start(n), run))
  }

  /** 200 readers in, one more at the counter with wsem: nobody can go on. */
  lemma CrowdWedges(n: nat) returns (run: seq<Action>)
    requires n > MAX_LOCKS
    ensures IsRun(Start(n), run) && Wedged(After(Start(n), run)) && Starved(After(Start(n), run), MAX_LOCKS)
  {
    var crowd := CrowdIsReachable(n, MAX_LOCKS);
    var p := MAX_LOCKS;
    var s := Crowded(n, MAX_LOCKS);
    var s1 := Next(s, Call(p, false));
    var s2 := Next(s1, Go(p));
    var s3 := Next(s2, Go(p));
    RunOfOne(s2, Go(p));
    RunOfMore(s1, Go(p), [Go(p)]);
    RunOfMore(s, Call(p, false), [Go(p)] + [Go(p)]);
    var last := [Call(p, false)] + ([Go(p)] + [Go(p)]);
    RunThen(Start(n), crowd, last);
    run := crowd + last;
    assert s3.pcs[p] == R3 && s3.c == 0 && s3.wsem == 0;
    assert forall q: nat :: q < n && q != p ==> s3.pcs[q] == if q < p then Reading else Idle;
  }

  ghost predicate CanStarve(n: nat) {
    exists run, p :: IsRun(Start(n), run) && Starved(After(Start(n), run), p)
  }

  /** A reader can end up waiting for the counter with wsem in its hands exactly when there are more than
      200 processes. */
  lemma StarvesIffTooMany(n: nat)
    ensures CanStarve(n) <==> n > 200
  {
    if n > MAX_LOCKS {
      var run := CrowdWedges(n);
      assert Starved(After(Start(n), run), MAX_LOCKS);
    } else {
      forall run, p | IsRun(Start(n), run) && Starved(After(Start(n), run), p)
        ensures false
      {
        StartConserved(n);
        RunConserves(Start(n), run);
        EnoughForAll(After(Start(n), run), p);
      }
    }
  }

  /** The lock can be wedged exactly when there are more than 200 processes. */
  lemma WedgesIffTooMany(n: nat)
    ensures CanWedge(n) <==> n > 200
  {
    if n > MAX_LOCKS {
      var run := CrowdWedges(n);
    } else {
      forall run | IsRun(Start(n), run)
        ensures !Wedged(After(Start(n), run))
      {
        StartConserved(n);
        RunConserves(Start(n), run);
        RunKeepsGateReturning(Start(n), run);
        NeverWedged(After(Start(n), run));
      }
    }
  }
}
