/**
 Any number of handles on one nesting semaphore of the three-semaphore lock
 (libqwsproto/qws_lock.c), one completed call at a time.
 */
module QwsLockSystem {
  import opened QwsLock

  datatype Step = Lock(handle: nat) | Unlock(handle: nat)

  /** value is the semaphore, handles the processes' handles on it. */
  datatype Sys = Sys(value: int, handles: seq<Handle>)

  /** What the operations after the first n add to semaphore `which`. */
  function Effect(ops: seq<SemOp>, n: nat, which: int): int
    decreases |ops|
  {
    if |ops| <= n then 0
    else Effect(ops[..|ops| - 1], n, which) + (if ops[|ops| - 1].sem == which then ops[|ops| - 1].delta else 0)
  }

  lemma EffectOfStep(h: Handle, op: SemOp, which: int)
    ensures Effect(h.ops, |h.ops|, which) == 0
    ensures Effect(h.ops + [op], |h.ops|, which) == if op.sem == which then op.delta else 0
  {
    assert (h.ops + [op])[..|h.ops|] == h.ops;
  }

  function Moved(h: Handle, step: Step, which: int): Handle
    requires InRange(which)
  {
    if step.Lock? then Locked(h, which) else Unlocked(h, which)
  }

  /** The semaphore after a handle's call. */
  function ValueAfter(s: Sys, step: Step, which: int): int
    requires step.handle < |s.handles| && InRange(which)
  {
    var h := s.handles[step.handle];
    s.value + Effect(Moved(h, step, which).ops, |h.ops|, which)
  }

  /** A call completes only when the semaphore allows its wait. */
  predicate Enabled(s: Sys, step: Step, which: int)
    requires InRange(which)
  {
    step.handle < |s.handles| && 0 <= ValueAfter(s, step, which)
  }

  function Next(s: Sys, step: Step, which: int): Sys
    requires InRange(which) && Enabled(s, step, which)
  {
    Sys(ValueAfter(s, step, which), s.handles[step.handle := Moved(s.handles[step.handle], step, which)])
  }

  predicate Disciplined(s: Sys, step: Step, which: int)
    requires InRange(which)
  {
    Enabled(s, step, which) && (step.Unlock? ==> s.handles[step.handle].count[which] > 0)
  }

  function Holding(handles: seq<Handle>, which: int): nat
    requires InRange(which)
  {
    if handles == [] then 0 else (if handles[0].count[which] > 0 then 1 else 0) + Holding(handles[1..], which)
  }

  predicate Inv(s: Sys, which: int)
    requires InRange(which)
  {
    0 <= s.value && s.value + Holding(s.handles, which) == 1
  }

  lemma {:induction false} HoldingAfterUpdate(handles: seq<Handle>, i: nat, h: Handle, which: int)
    requires InRange(which) && i < |handles|
    ensures Holding(handles[i := h], which) == Holding(handles, which)
            - (if handles[i].count[which] > 0 then 1 else 0) + (if h.count[which] > 0 then 1 else 0)
  {
    if i > 0 {
      assert handles[i := h][1..] == handles[1..][i - 1 := h];
      HoldingAfterUpdate(handles[1..], i - 1, h, which);
    } else {
      assert handles[0 := h][1..] == handles[1..];
    }
  }

  /** A completed call keeps "value + holders = 1" exactly when it does not unlock what the handle
      does not hold. */
  lemma StepKeepsInvIff(s: Sys, step: Step, which: int)
    requires which == 0 || which == 1
    requires Inv(s, which) && Enabled(s, step, which)
    ensures Inv(Next(s, step, which), which) <==> Disciplined(s, step, which)
  {
    var h := s.handles[step.handle];
    EffectOfStep(h, SemOp(which, -1), which);
    EffectOfStep(h, SemOp(which, 1), which);
    HoldingAfterUpdate(s.handles, step.handle, Moved(h, step, which), which);
  }

  predicate Run(s: Sys, steps: seq<Step>, t: Sys, which: int)
    requires InRange(which)
    decreases |steps|
  {
    if steps == [] then s == t
    else Disciplined(s, steps[0], which) && Run(Next(s, steps[0], which), steps[1..], t, which)
  }

  lemma {:induction false} HoldingOfTwo(handles: seq<Handle>, i: nat, j: nat, which: int)
    requires InRange(which) && i < j < |handles|
    requires handles[i].count[which] > 0 && handles[j].count[which] > 0
    ensures Holding(handles, which) >= 2
  {
    if i > 0 {
      HoldingOfTwo(handles[1..], i - 1, j - 1, which);
    } else {
      HoldingOfOne(handles[1..], j - 1, which);
    }
  }

  lemma {:induction false} HoldingOfOne(handles: seq<Handle>, i: nat, which: int)
    requires InRange(which) && i < |handles|
    requires handles[i].count[which] > 0
    ensures Holding(handles, which) >= 1
  {
    if i > 0 {
      HoldingOfOne(handles[1..], i - 1, which);
    }
  }

  /** Over every balanced run of any number of handles, at most one holds the semaphore. */
  lemma {:induction false} RunIsExclusive(s: Sys, steps: seq<Step>, t: Sys, which: int)
    requires which == 0 || which == 1
    requires Inv(s, which) && Run(s, steps, t, which)
    ensures Inv(t, which)
    ensures forall i, j :: 0 <= i < j < |t.handles| ==>
              !(t.handles[i].count[which] > 0 && t.handles[j].count[which] > 0)
    decreases |steps|
  {
    if steps == [] {
      forall i, j | 0 <= i < j < |t.handles| && t.handles[i].count[which] > 0 && t.handles[j].count[which] > 0
        ensures false
      {
        HoldingOfTwo(t.handles, i, j, which);
      }
    } else {
      StepKeepsInvIff(s, steps[0], which);
      RunIsExclusive(Next(s, steps[0], which), steps[1..], t, which);
    }
  }

  /** The state the lock is created in. */
  lemma {:induction false} FreshLockInv(handles: seq<Handle>, which: int)
    requires which == 0 || which == 1
    requires forall i :: 0 <= i < |handles| ==> handles[i] == Handle([0, 0, 0], [])
    ensures Inv(Sys(1, handles), which)
  {
    if handles != [] {
      FreshLockInv(handles[1..], which);
    }
  }
}
