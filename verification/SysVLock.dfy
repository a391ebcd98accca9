/**
 The reader-writer lock over one System V semaphore (qlock_lock and qlock_unlock in
 libqwsproto/qws_lock.c): a reader takes 1 of 200, a writer takes all 200 at once. semop blocks until the
 whole amount is there, which here makes the step not enabled.
 */
module SysVLock {
  import opened Counting

  const MAX_LOCKS := 200

  datatype Kind = Read | Write
  datatype Hold = Free | Reading | Writing

  datatype Action = Lock(p: nat, kind: Kind) | Unlock(p: nat, kind: Kind)

  datatype Sys = Sys(value: int, holds: seq<Hold>)

  function Amount(kind: Kind): int { if kind.Write? then MAX_LOCKS else 1 }

  function Held(kind: Kind): Hold { if kind.Write? then Writing else Reading }

  function Readers(s: Sys): nat { CountIn(s.holds, {Reading}) }

  function Writers(s: Sys): nat { CountIn(s.holds, {Writing}) }

  /** semop: a negative amount waits until the value covers it; a positive one never waits. */
  predicate Enabled(s: Sys, a: Action) {
    a.p < |s.holds| && (a.Lock? ==> s.holds[a.p] == Free && s.value >= Amount(a.kind))
  }

  function Next(s: Sys, a: Action): Sys
    requires Enabled(s, a)
  {
    if a.Lock? then Sys(s.value - Amount(a.kind), s.holds[a.p := Held(a.kind)])
    else Sys(s.value + Amount(a.kind), s.holds[a.p := Free])
  }

  /** A process unlocks what it holds. */
  predicate Disciplined(s: Sys, a: Action) {
    Enabled(s, a) && (a.Unlock? ==> s.holds[a.p] == Held(a.kind))
  }

  predicate Inv(s: Sys) {
    0 <= s.value && s.value + Readers(s) + MAX_LOCKS * Writers(s) == MAX_LOCKS
  }

  lemma NextCounts(s: Sys, a: Action)
    requires Enabled(s, a)
    ensures Readers(Next(s, a)) == Readers(s) - (if s.holds[a.p] == Reading then 1 else 0)
                                   + (if a == Lock(a.p, Read) then 1 else 0)
    ensures Writers(Next(s, a)) == Writers(s) - (if s.holds[a.p] == Writing then 1 else 0)
                                   + (if a == Lock(a.p, Write) then 1 else 0)
  {
    CountUpdated(s.holds, a.p, Next(s, a).holds[a.p], {Reading});
    CountUpdated(s.holds, a.p, Next(s, a).holds[a.p], {Writing});
  }

  /** "value + readers + 200 * writers = 200" survives a call exactly when the call is disciplined. */
  lemma StepKeepsInvIff(s: Sys, a: Action)
    requires Inv(s) && Enabled(s, a)
    ensures Inv(Next(s, a)) <==> Disciplined(s, a)
  {
    NextCounts(s, a);
    CountMembers(s.holds, a.p, a.p, {s.holds[a.p]});
  }

  /** A writer is alone, and at most 200 readers are in. */
  lemma InvExcludes(s: Sys)
    requires Inv(s)
    ensures Writers(s) <= 1 && Readers(s) <= 200
    ensures Writers(s) == 1 ==> Readers(s) == 0 && s.value == 0
    ensures forall i, j :: 0 <= i < |s.holds| && 0 <= j < |s.holds| && s.holds[i] == Writing && i != j ==>
              s.holds[j] == Free
  {
    forall i, j | 0 <= i < |s.holds| && 0 <= j < |s.holds| && s.holds[i] == Writing && i != j
      ensures s.holds[j] == Free
    {
      CountMembers(s.holds, i, i, {Writing});
      CountNone(s.holds, {Reading});
      if s.holds[j] == Writing {
        CountMembers(s.holds, i, j, {Writing});
      }
    }
  }

  // ---------- the lock it is meant to be ----------

  datatype Abstract = Abstract(readers: set<nat>, writers: set<nat>)

  function Abs(s: Sys): Abstract {
    Abstract(set i: nat | i < |s.holds| && s.holds[i] == Reading, set i: nat | i < |s.holds| && s.holds[i] == Writing)
  }

  predicate AbstractEnabled(a: Abstract, act: Action) {
    match act
    case Lock(p, Read) => a.writers == {} && |a.readers| < MAX_LOCKS && p !in a.readers
    case Lock(p, Write) => a.writers == {} && a.readers == {}
    case Unlock(p, Read) => p in a.readers
    case Unlock(p, Write) => p in a.writers
  }

  function AbstractNext(a: Abstract, act: Action): Abstract {
    match act
    case Lock(p, Read) => a.(readers := a.readers + {p})
    case Lock(p, Write) => a.(writers := a.writers + {p})
    case Unlock(p, Read) => a.(readers := a.readers - {p})
    case Unlock(p, Write) => a.(writers := a.writers - {p})
  }

  function Indices(s: seq<Hold>, h: Hold): set<nat> {
    set i: nat | i < |s| && s[i] == h
  }

  lemma {:induction false} CountIsCardinality(s: seq<Hold>, h: Hold)
    ensures |Indices(s, h)| == CountIn(s, {h})
  {
    if s == [] {
      assert Indices(s, h) == {};
    } else {
      var front, last := s[..|s| - 1], |s| - 1;
      CountIsCardinality(front, h);
      CountSnoc(front, s[last], h);
      assert s == front + [s[last]];
      if s[last] == h {
        assert Indices(s, h) == Indices(front, h) + {last};
      } else {
        assert Indices(s, h) == Indices(front, h);
      }
    }
  }

  lemma {:induction false} CountSnoc(s: seq<Hold>, x: Hold, h: Hold)
    ensures CountIn(s + [x], {h}) == CountIn(s, {h}) + (if x == h then 1 else 0)
  {
    if s == [] {
      assert s + [x] == [x];
    } else {
      assert (s + [x])[1..] == s[1..] + [x];
      CountSnoc(s[1..], x, h);
    }
  }

  /** The semaphore lets a disciplined call through exactly when the abstract lock does, and the two
      stay in step. */
  lemma RefinesReaderWriterLock(s: Sys, a: Action)
    requires Inv(s) && a.p < |s.holds| && (a.Lock? ==> s.holds[a.p] == Free)
    ensures Disciplined(s, a) <==> AbstractEnabled(Abs(s), a)
    ensures Disciplined(s, a) ==> Abs(Next(s, a)) == AbstractNext(Abs(s), a)
  {
    CountIsCardinality(s.holds, Reading);
    CountIsCardinality(s.holds, Writing);
    assert Abs(s).readers == Indices(s.holds, Reading) && Abs(s).writers == Indices(s.holds, Writing);
    if Disciplined(s, a) {
      NextHoldings(s, a);
    }
  }

  lemma NextHoldings(s: Sys, a: Action)
    requires Inv(s) && Disciplined(s, a)
    ensures Abs(Next(s, a)) == AbstractNext(Abs(s), a)
  {
    assert Abs(Next(s, a)).readers == AbstractNext(Abs(s), a).readers;
    assert Abs(Next(s, a)).writers == AbstractNext(Abs(s), a).writers;
  }

  // ---------- runs ----------

  function Fresh(n: nat): Sys {
    Sys(MAX_LOCKS, seq(n, _ => Free))
  }

  predicate Run(s: Sys, run: seq<Action>, t: Sys)
    decreases |run|
  {
    if run == [] then s == t else Disciplined(s, run[0]) && Run(Next(s, run[0]), run[1..], t)
  }

  lemma {:induction false} RunKeepsInv(s: Sys, run: seq<Action>, t: Sys)
    requires Inv(s) && Run(s, run, t)
    ensures Inv(t)
    decreases |run|
  {
    if run != [] {
      StepKeepsInvIff(s, run[0]);
      RunKeepsInv(Next(s, run[0]), run[1..], t);
    }
  }

  /** In every state disciplined processes can reach: the conservation law, and who gets in. */
  lemma ReachableStates(n: nat, run: seq<Action>, t: Sys, p: nat)
    requires Run(Fresh(n), run, t) && p < |t.holds| && t.holds[p] == Free
    ensures t.value + Readers(t) + 200 * Writers(t) == 200
    ensures Enabled(t, Lock(p, Read)) <==> Writers(t) == 0 && Readers(t) < 200
    ensures Enabled(t, Lock(p, Write)) <==> Writers(t) == 0 && Readers(t) == 0
  {
    CountNone(Fresh(n).holds, {Reading});
    CountNone(Fresh(n).holds, {Writing});
    RunKeepsInv(Fresh(n), run, t);
  }
}
